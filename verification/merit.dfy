/** Merit bands of the two single-file generators: a band gives a grade and
    a comment to every score between its Min and Max, both inclusive.
    Bands are grouped by subject, and a subject's own bands are searched
    before the bands of the catch-all subject "ALL". */
module Merit {
  import opened PyValues
  import opened PyText

  datatype Band = Band(min: real, max: real, grade: string, comment: string)

  predicate Covers(b: Band, score: real) {
    b.min <= score <= b.max
  }

  /** Position of the first band, in list order, that covers the score. */
  function FirstCovering(bands: seq<Band>, score: real): (r: Option<nat>)
    ensures r.None? <==> forall i :: 0 <= i < |bands| ==> !Covers(bands[i], score)
    ensures r.Some? ==> r.value < |bands| && Covers(bands[r.value], score)
    ensures r.Some? ==> forall j :: 0 <= j < r.value ==> !Covers(bands[j], score)
  {
    if |bands| == 0 then None
    else if Covers(bands[0], score) then Some(0)
    else
      match FirstCovering(bands[1..], score)
      case None => None
      case Some(k) => Some(k + 1)
  }

  /** The catch-all subject. */
  const All: string := "ALL"

  /** The (grade, comment) answer for a subject and a score: the first
      covering band of the upper-cased subject, else the first covering band
      of "ALL", else two empty strings. */
  function Resolve(groups: map<string, seq<Band>>, subject: string, score: real): (r: (string, string))
    ensures var s := Upper(subject);
      s in groups && FirstCovering(groups[s], score).Some? ==>
        var b := groups[s][FirstCovering(groups[s], score).value]; r == (b.grade, b.comment)
    ensures var s := Upper(subject);
      (s !in groups || FirstCovering(groups[s], score).None?) && All in groups && FirstCovering(groups[All], score).Some? ==>
        var b := groups[All][FirstCovering(groups[All], score).value]; r == (b.grade, b.comment)
  {
    var s := Upper(subject);
    if s in groups && FirstCovering(groups[s], score).Some? then
      var b := groups[s][FirstCovering(groups[s], score).value];
      (b.grade, b.comment)
    else if All in groups && FirstCovering(groups[All], score).Some? then
      var b := groups[All][FirstCovering(groups[All], score).value];
      (b.grade, b.comment)
    else ("", "")
  }

  /** The answer is empty only when neither the subject's bands nor the
      "ALL" bands cover the score, or the covering band itself is blank;
      and any non-empty answer comes from a covering band. */
  lemma ResolveFromCoveringBand(groups: map<string, seq<Band>>, subject: string, score: real)
    ensures var r := Resolve(groups, subject, score);
      r == ("", "") || exists k, i :: k in groups && 0 <= i < |groups[k]| && (k == Upper(subject) || k == All)
                                && Covers(groups[k][i], score) && r == (groups[k][i].grade, groups[k][i].comment)
    ensures (forall k, i :: k in groups && 0 <= i < |groups[k]| && (k == Upper(subject) || k == All)
               ==> !Covers(groups[k][i], score))
            ==> Resolve(groups, subject, score) == ("", "")
  {
    var s := Upper(subject);
    if s in groups && FirstCovering(groups[s], score).Some? {
      var i := FirstCovering(groups[s], score).value;
      assert Covers(groups[s][i], score);
    } else if All in groups && FirstCovering(groups[All], score).Some? {
      var i := FirstCovering(groups[All], score).value;
      assert Covers(groups[All][i], score);
    }
  }

  // ------------------------------------------------ stable sort by Min

  predicate SortedDesc(bs: seq<Band>) {
    forall i, j :: 0 <= i < j < |bs| ==> bs[i].min >= bs[j].min
  }

  /** Inserts `b` after every leading band whose Min is at least its own,
      so that bands with equal Min keep their arrival order. */
  function InsertDesc(b: Band, bs: seq<Band>): (r: seq<Band>)
    ensures |r| == |bs| + 1
    ensures r[0] == b || (|bs| > 0 && r[0] == bs[0])
  {
    if |bs| == 0 then [b]
    else if bs[0].min >= b.min then [bs[0]] + InsertDesc(b, bs[1..])
    else [b] + bs
  }

  lemma {:induction false} InsertDescBounded(b: Band, bs: seq<Band>, x: real)
    requires b.min <= x && forall k :: 0 <= k < |bs| ==> bs[k].min <= x
    ensures forall k :: 0 <= k < |InsertDesc(b, bs)| ==> InsertDesc(b, bs)[k].min <= x
    decreases |bs|
  {
    if |bs| > 0 && bs[0].min >= b.min {
      InsertDescBounded(b, bs[1..], x);
    }
  }

  lemma {:induction false} InsertDescSorted(b: Band, bs: seq<Band>)
    requires SortedDesc(bs)
    ensures SortedDesc(InsertDesc(b, bs))
    decreases |bs|
  {
    if |bs| > 0 && bs[0].min >= b.min {
      var rest := InsertDesc(b, bs[1..]);
      InsertDescSorted(b, bs[1..]);
      InsertDescBounded(b, bs[1..], bs[0].min);
      var r := [bs[0]] + rest;
      assert InsertDesc(b, bs) == r;
      forall i, j | 0 <= i < j < |r|
        ensures r[i].min >= r[j].min
      {
        assert r[j] == rest[j - 1];
        if i > 0 {
          assert r[i] == rest[i - 1];
        }
      }
    }
  }

  lemma {:induction false} InsertDescKeeps(b: Band, bs: seq<Band>)
    ensures multiset(InsertDesc(b, bs)) == multiset(bs) + multiset{b}
    decreases |bs|
  {
    if |bs| > 0 && bs[0].min >= b.min {
      InsertDescKeeps(b, bs[1..]);
      assert bs == [bs[0]] + bs[1..];
    }
  }

  /** `list.sort(key=min, reverse=True)`: Python's sort is stable, also
      when reversed. */
  function SortDesc(bs: seq<Band>): (r: seq<Band>)
    ensures |r| == |bs|
  {
    if |bs| == 0 then [] else InsertDesc(bs[|bs| - 1], SortDesc(bs[..|bs| - 1]))
  }

  /** Sorting puts the bands in descending order of Min and keeps every
      band, as often as it occurs. */
  lemma {:induction false} SortDescSorted(bs: seq<Band>)
    ensures SortedDesc(SortDesc(bs))
    ensures multiset(SortDesc(bs)) == multiset(bs)
    decreases |bs|
  {
    if |bs| > 0 {
      var init := bs[..|bs| - 1];
      SortDescSorted(init);
      InsertDescSorted(bs[|bs| - 1], SortDesc(init));
      InsertDescKeeps(bs[|bs| - 1], SortDesc(init));
      assert bs == init + [bs[|bs| - 1]];
    }
  }

  /** The bands whose Min is exactly `m`, in order. */
  function WithMin(bs: seq<Band>, m: real): seq<Band> {
    if |bs| == 0 then []
    else (if bs[0].min == m then [bs[0]] else []) + WithMin(bs[1..], m)
  }

  lemma {:induction false} WithMinAppend(a: seq<Band>, b: seq<Band>, m: real)
    ensures WithMin(a + b, m) == WithMin(a, m) + WithMin(b, m)
    decreases |a|
  {
    if |a| == 0 {
      assert a + b == b;
    } else {
      assert (a + b)[1..] == a[1..] + b;
      WithMinAppend(a[1..], b, m);
    }
  }

  lemma {:induction false} WithMinBelow(bs: seq<Band>, m: real)
    requires forall i :: 0 <= i < |bs| ==> bs[i].min < m
    ensures WithMin(bs, m) == []
    decreases |bs|
  {
    if |bs| > 0 {
      WithMinBelow(bs[1..], m);
    }
  }

  /** Inserting a band extends the bands of its own Min at the end and
      leaves the bands of every other Min alone. */
  lemma {:induction false} InsertDescWithMin(b: Band, bs: seq<Band>, m: real)
    requires SortedDesc(bs)
    ensures WithMin(InsertDesc(b, bs), m) == WithMin(bs, m) + (if b.min == m then [b] else [])
    decreases |bs|
  {
    var tail := if b.min == m then [b] else [];
    if |bs| == 0 {
      assert InsertDesc(b, bs) == [b];
      assert WithMin([b], m) == tail + WithMin([], m);
    } else if bs[0].min >= b.min {
      var rest := InsertDesc(b, bs[1..]);
      var head := if bs[0].min == m then [bs[0]] else [];
      assert InsertDesc(b, bs) == [bs[0]] + rest;
      InsertDescWithMin(b, bs[1..], m);
      assert WithMin([bs[0]] + rest, m) == head + WithMin(rest, m) by {
        assert ([bs[0]] + rest)[1..] == rest;
      }
      assert WithMin(bs, m) == head + WithMin(bs[1..], m);
    } else {
      assert InsertDesc(b, bs) == [b] + bs;
      assert WithMin([b] + bs, m) == tail + WithMin(bs, m) by {
        assert ([b] + bs)[1..] == bs;
      }
      if b.min == m {
        WithMinBelow(bs, m);
      }
    }
  }

  /** Stability: for every Min value, the bands carrying it appear after
      sorting in the order they had before. */
  lemma {:induction false} SortDescStable(bs: seq<Band>, m: real)
    ensures WithMin(SortDesc(bs), m) == WithMin(bs, m)
    decreases |bs|
  {
    if |bs| > 0 {
      var init := bs[..|bs| - 1];
      var last := bs[|bs| - 1];
      var sorted := SortDesc(init);
      assert SortDesc(bs) == InsertDesc(last, sorted);
      SortDescSorted(init);
      SortDescStable(init, m);
      InsertDescWithMin(last, sorted, m);
      assert bs == init + [last];
      WithMinAppend(init, [last], m);
      assert WithMin([last], m) == (if last.min == m then [last] else []) by {
        assert [last][1..] == [];
      }
    }
  }

  lemma FirstCoveringOfSorted(s: seq<Band>, score: real, b: Band)
    requires SortedDesc(s) && FirstCovering(s, score).Some?
    requires b in s && Covers(b, score)
    ensures b.min <= s[FirstCovering(s, score).value].min
  {
    var i := FirstCovering(s, score).value;
    var j :| 0 <= j < |s| && s[j] == b;
    if j < i {
      assert !Covers(s[j], score);
    }
  }

  /** After sorting, the first covering band has the largest Min of all the
      covering bands. */
  lemma SortedFirstCoveringHasLargestMin(bs: seq<Band>, score: real)
    requires FirstCovering(SortDesc(bs), score).Some?
    ensures var s := SortDesc(bs); var i := FirstCovering(s, score).value;
      forall b :: b in bs && Covers(b, score) ==> b.min <= s[i].min
  {
    var s := SortDesc(bs);
    SortDescSorted(bs);
    forall b | b in bs && Covers(b, score)
      ensures b.min <= s[FirstCovering(s, score).value].min
    {
      assert b in multiset(bs);
      assert b in multiset(s);
      FirstCoveringOfSorted(s, score, b);
    }
  }

  /** A concrete case of the difference between the two orders: the same
      two overlapping bands answer 75 with "B" in file order and with "A"
      once sorted by descending Min. */
  lemma OrderDecidesOverlap()
    ensures var bs := [Band(60.0, 80.0, "B", ""), Band(70.0, 100.0, "A", "")];
      && bs[FirstCovering(bs, 75.0).value].grade == "B"
      && SortDesc(bs)[FirstCovering(SortDesc(bs), 75.0).value].grade == "A"
  {
    var bs := [Band(60.0, 80.0, "B", ""), Band(70.0, 100.0, "A", "")];
    assert bs[..1] == [bs[0]];
    assert SortDesc(bs[..1]) == [bs[0]] by {
      assert bs[..1][..0] == [];
    }
    assert SortDesc(bs) == [bs[1], bs[0]];
  }

  // --------------------------------------------------------- grouping

  /** The bands of one subject, in arrival order. */
  function BandsOf(entries: seq<(string, Band)>, subject: string): seq<Band> {
    if |entries| == 0 then []
    else
      var last := entries[|entries| - 1];
      BandsOf(entries[..|entries| - 1], subject) + (if last.0 == subject then [last.1] else [])
  }

  /** The subjects named by the entries. */
  function Subjects(entries: seq<(string, Band)>): (ss: set<string>)
    ensures forall i :: 0 <= i < |entries| ==> entries[i].0 in ss
    ensures forall s :: s in ss ==> exists i :: 0 <= i < |entries| && entries[i].0 == s
  {
    if |entries| == 0 then {}
    else
      var init := entries[..|entries| - 1];
      var ss := Subjects(init) + {entries[|entries| - 1].0};
      assert forall i :: 0 <= i < |init| ==> init[i] == entries[i];
      ss
  }

  /** Groups (subject, band) entries by subject: the subjects named are
      exactly the keys, and a subject's bands are its entries in arrival
      order. */
  function Group(entries: seq<(string, Band)>): (g: map<string, seq<Band>>)
    ensures g.Keys == Subjects(entries)
    ensures forall s :: s in g ==> g[s] == BandsOf(entries, s) && |g[s]| > 0
  {
    if |entries| == 0 then map[]
    else
      var init := entries[..|entries| - 1];
      var last := entries[|entries| - 1];
      var g := Group(init);
      GroupStep(init, last, g);
      g[last.0 := (if last.0 in g then g[last.0] else []) + [last.1]]
  }

  lemma GroupStep(init: seq<(string, Band)>, last: (string, Band), g: map<string, seq<Band>>)
    requires g.Keys == Subjects(init)
    requires forall s :: s in g ==> g[s] == BandsOf(init, s)
    ensures forall s :: s != last.0 ==> BandsOf(init + [last], s) == BandsOf(init, s)
    ensures BandsOf(init + [last], last.0) == (if last.0 in g then g[last.0] else []) + [last.1]
    ensures Subjects(init + [last]) == Subjects(init) + {last.0}
  {
    var e := init + [last];
    assert e[..|e| - 1] == init;
    if last.0 !in g {
      BandsOfAbsent(init, last.0);
    }
  }

  lemma {:induction false} BandsOfAbsent(entries: seq<(string, Band)>, subject: string)
    requires subject !in Subjects(entries)
    ensures BandsOf(entries, subject) == []
    decreases |entries|
  {
    if |entries| > 0 {
      var init := entries[..|entries| - 1];
      assert Subjects(entries) == Subjects(init) + {entries[|entries| - 1].0};
      BandsOfAbsent(init, subject);
    }
  }

  /** Searching two lists one after the other. */
  lemma {:induction false} FirstCoveringAppend(a: seq<Band>, b: seq<Band>, score: real)
    ensures FirstCovering(a, score).Some? ==> FirstCovering(a + b, score) == FirstCovering(a, score)
    ensures FirstCovering(a, score).None? && FirstCovering(b, score).Some? ==>
              FirstCovering(a + b, score) == Some(|a| + FirstCovering(b, score).value)
    ensures FirstCovering(a, score).None? && FirstCovering(b, score).None? ==> FirstCovering(a + b, score).None?
    decreases |a|
  {
    if |a| > 0 {
      assert (a + b)[1..] == a[1..] + b;
      FirstCoveringAppend(a[1..], b, score);
    } else {
      assert a + b == b;
    }
  }

  /** No covering band is found when none of the subject's entries covers
      the score. */
  lemma {:induction false} BandsOfNotCovering(entries: seq<(string, Band)>, subject: string, score: real)
    requires forall j :: 0 <= j < |entries| && entries[j].0 == subject ==> !Covers(entries[j].1, score)
    ensures FirstCovering(BandsOf(entries, subject), score).None?
    decreases |entries|
  {
    if |entries| > 0 {
      var init := entries[..|entries| - 1];
      var last := entries[|entries| - 1];
      assert forall j :: 0 <= j < |init| ==> init[j] == entries[j];
      BandsOfNotCovering(init, subject, score);
      FirstCoveringAppend(BandsOf(init, subject), if last.0 == subject then [last.1] else [], score);
    }
  }

  /** In arrival order, the band found for a score is that of the earliest
      entry of the subject that covers it. */
  lemma {:induction false} FirstCoveringOfBandsOf(entries: seq<(string, Band)>, subject: string, score: real, i: nat)
    requires i < |entries| && entries[i].0 == subject && Covers(entries[i].1, score)
    requires forall j :: 0 <= j < i && entries[j].0 == subject ==> !Covers(entries[j].1, score)
    ensures var bs := BandsOf(entries, subject);
      FirstCovering(bs, score).Some? && bs[FirstCovering(bs, score).value] == entries[i].1
    decreases |entries|
  {
    var init := entries[..|entries| - 1];
    var last := entries[|entries| - 1];
    var tail: seq<Band> := if last.0 == subject then [last.1] else [];
    assert forall j :: 0 <= j < |init| ==> init[j] == entries[j];
    assert BandsOf(entries, subject) == BandsOf(init, subject) + tail;
    FirstCoveringAppend(BandsOf(init, subject), tail, score);
    if i == |entries| - 1 {
      BandsOfNotCovering(init, subject, score);
    } else {
      FirstCoveringOfBandsOf(init, subject, score, i);
    }
  }
}
