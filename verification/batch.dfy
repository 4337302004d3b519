/** What the class-teacher and principal dashboards share when they render
    a batch of report cards into one ZIP archive: the entries written for a
    student, gated on the chosen formats, and the final outcome. */
module Batch {
  import opened PyValues

  /** The positions of the rows whose name was selected, in increasing
      order: every selected row's position and nothing else. */
  function ChosenIndices<T(!new)>(xs: seq<T>, name: T -> string, selected: seq<string>): (idx: seq<nat>)
    ensures forall k :: 0 <= k < |idx| ==> idx[k] < |xs| && name(xs[idx[k]]) in selected
    ensures forall k, l :: 0 <= k < l < |idx| ==> idx[k] < idx[l]
    ensures forall i :: 0 <= i < |xs| && name(xs[i]) in selected ==> i in idx
  {
    if |xs| == 0 then []
    else
      var n := |xs| - 1;
      var init := ChosenIndices(xs[..n], name, selected);
      assert forall k :: 0 <= k < |init| ==> xs[..n][init[k]] == xs[init[k]];
      init + (if name(xs[n]) in selected then [n] else [])
  }

  /** `df[df['name'].isin(selected)]`: the rows whose name was selected,
      in their original order. */
  function Chosen<T(!new)>(xs: seq<T>, name: T -> string, selected: seq<string>): (ys: seq<T>)
    ensures |ys| == |ChosenIndices(xs, name, selected)|
    ensures forall k :: 0 <= k < |ys| ==> ys[k] == xs[ChosenIndices(xs, name, selected)[k]]
    ensures forall y :: y in ys <==> y in xs && name(y) in selected
  {
    var idx := ChosenIndices(xs, name, selected);
    var ys := seq(|idx|, k requires 0 <= k < |idx| => xs[idx[k]]);
    assert forall y :: y in xs && name(y) in selected ==> y in ys by {
      forall y | y in xs && name(y) in selected
        ensures y in ys
      {
        var i :| 0 <= i < |xs| && xs[i] == y;
        var k :| 0 <= k < |idx| && idx[k] == i;
        assert ys[k] == y;
      }
    }
    ys
  }

  /** One file in the archive. */
  datatype Entry = Entry(name: string, data: Bytes)

  /** The entries written for one student whose report rendered to `pdf`:
      nothing when the PDF is empty; otherwise `<base>.pdf` when "PDF" is
      chosen and `<base>.jpg` when "JPG" is chosen and the conversion
      (`None` when it raises) succeeded. */
  function StudentEntries(base: string, pdf: Bytes, jpg: Option<Bytes>, formats: seq<string>): (es: seq<Entry>)
    ensures pdf == [] ==> es == []
    ensures Entry(base + ".pdf", pdf) in es <==> pdf != [] && "PDF" in formats
    ensures (exists e :: e in es && e.name == base + ".jpg") <==> pdf != [] && "JPG" in formats && jpg.Some?
    ensures forall e :: e in es ==> e == Entry(base + ".pdf", pdf) || (jpg.Some? && e == Entry(base + ".jpg", jpg.value))
  {
    assert (base + ".pdf")[|base| + 1] != (base + ".jpg")[|base| + 1];
    if pdf == [] then []
    else
      (if "PDF" in formats then [Entry(base + ".pdf", pdf)] else [])
        + (if "JPG" in formats && jpg.Some? then [Entry(base + ".jpg", jpg.value)] else [])
  }

  /** A failed JPG conversion never costs a student the PDF entry. */
  lemma ConversionFailureKeepsPdf(base: string, pdf: Bytes, jpg: Bytes, formats: seq<string>)
    ensures Entry(base + ".pdf", pdf) in StudentEntries(base, pdf, None, formats)
        <==> Entry(base + ".pdf", pdf) in StudentEntries(base, pdf, Some(jpg), formats)
    ensures forall e :: e in StudentEntries(base, pdf, None, formats) ==> e in StudentEntries(base, pdf, Some(jpg), formats)
  {
  }

  /** A rendered student: archive base name, PDF bytes, JPG conversion. */
  datatype Rendered = Rendered(base: string, pdf: Bytes, jpg: Option<Bytes>)

  function EntriesOf(r: Rendered, formats: seq<string>): seq<Entry> {
    StudentEntries(r.base, r.pdf, r.jpg, formats)
  }

  /** The archive's entries, student by student in order. */
  function AllEntries(rs: seq<Rendered>, formats: seq<string>): seq<Entry> {
    if |rs| == 0 then [] else AllEntries(rs[..|rs| - 1], formats) + EntriesOf(rs[|rs| - 1], formats)
  }

  /** Some student produced a non-empty PDF. */
  predicate AnyRendered(rs: seq<Rendered>) {
    exists i :: 0 <= i < |rs| && rs[i].pdf != []
  }

  /** Every entry of every student is in the archive. */
  lemma {:induction false} AllEntriesHoldsEach(rs: seq<Rendered>, formats: seq<string>, i: nat)
    requires i < |rs|
    ensures forall e :: e in EntriesOf(rs[i], formats) ==> e in AllEntries(rs, formats)
    decreases |rs|
  {
    if i < |rs| - 1 {
      var init := rs[..|rs| - 1];
      assert init[i] == rs[i];
      AllEntriesHoldsEach(init, formats, i);
    }
  }

  /** And the archive holds nothing else. */
  lemma {:induction false} AllEntriesFromSomeStudent(rs: seq<Rendered>, formats: seq<string>, e: Entry)
    requires e in AllEntries(rs, formats)
    ensures exists i :: 0 <= i < |rs| && e in EntriesOf(rs[i], formats)
    decreases |rs|
  {
    var init := rs[..|rs| - 1];
    if e !in EntriesOf(rs[|rs| - 1], formats) {
      AllEntriesFromSomeStudent(init, formats, e);
      var i :| 0 <= i < |init| && e in EntriesOf(init[i], formats);
      assert init[i] == rs[i];
    }
  }

  /** The batch loop: write each student's entries and note whether any
      student rendered. */
  method Assemble(rs: seq<Rendered>, formats: seq<string>) returns (entries: seq<Entry>, hasFiles: bool)
    ensures entries == AllEntries(rs, formats)
    ensures hasFiles <==> AnyRendered(rs)
  {
    entries := [];
    hasFiles := false;
    var i := 0;
    while i < |rs|
      invariant 0 <= i <= |rs|
      invariant entries == AllEntries(rs[..i], formats)
      invariant hasFiles <==> exists k :: 0 <= k < i && rs[k].pdf != []
    {
      assert rs[..i + 1][..i] == rs[..i];
      entries := entries + EntriesOf(rs[i], formats);
      if rs[i].pdf != [] {
        hasFiles := true;
      }
      i := i + 1;
    }
    assert rs[..i] == rs;
  }

  /** What the user sees: a refusal before anything is rendered, an
      exception that ends the page before the archive is offered, an error
      when nothing rendered, or the archive to download. */
  datatype Outcome = Refused(message: string) | Raised | Failed(message: string) | Zip(entries: seq<Entry>)

  /** The end of a batch: the archive is offered exactly when some student
      rendered (even if no entry was written for it), else `failure`. */
  function Finish(rs: seq<Rendered>, formats: seq<string>, failure: string): (o: Outcome)
    ensures o.Zip? <==> AnyRendered(rs)
    ensures o.Zip? ==> o.entries == AllEntries(rs, formats)
    ensures !o.Zip? ==> o == Failed(failure)
  {
    if AnyRendered(rs) then Zip(AllEntries(rs, formats)) else Failed(failure)
  }

  /** Only "JPG" chosen and every conversion failing still offers an archive,
      an empty one. */
  lemma EmptyArchiveOffered(pdf: Bytes)
    requires pdf != []
    ensures Finish([Rendered("A", pdf, None)], ["JPG"], "") == Zip([])
  {
    var rs := [Rendered("A", pdf, None)];
    assert rs[0].pdf != [];
    assert rs[..0] == [];
    assert "PDF" !in ["JPG"] by {
      assert "PDF"[0] != "JPG"[0];
    }
    assert EntriesOf(rs[0], ["JPG"]) == [];
    assert AllEntries(rs, ["JPG"]) == AllEntries([], ["JPG"]) + [];
  }
}
