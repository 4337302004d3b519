/** Python `str` operations the report code relies on, over ASCII text.
    Characters outside ASCII are left unchanged by the case maps and are
    never whitespace here. */
module PyText {

  /** `str.isspace()` restricted to ASCII: space, \t \n \v \f \r and the
      four separator controls 0x1C..0x1F. */
  predicate IsSpace(c: char) {
    c == ' ' || ('\t' <= c <= '\r') || ('\U{1C}' <= c <= '\U{1F}')
  }

  predicate IsDigit(c: char) {
    '0' <= c <= '9'
  }

  predicate NoSpace(s: string) {
    forall i :: 0 <= i < |s| ==> !IsSpace(s[i])
  }

  function LowerChar(c: char): char {
    if 'A' <= c <= 'Z' then (c as int + 32) as char else c
  }

  function UpperChar(c: char): char {
    if 'a' <= c <= 'z' then (c as int - 32) as char else c
  }

  /** `str.lower()` */
  function Lower(s: string): (r: string)
    ensures |r| == |s|
    ensures forall i :: 0 <= i < |s| ==> r[i] == LowerChar(s[i])
  {
    if |s| == 0 then "" else [LowerChar(s[0])] + Lower(s[1..])
  }

  /** `str.upper()` */
  function Upper(s: string): (r: string)
    ensures |r| == |s|
    ensures forall i :: 0 <= i < |s| ==> r[i] == UpperChar(s[i])
  {
    if |s| == 0 then "" else [UpperChar(s[0])] + Upper(s[1..])
  }

  /** `str.capitalize()`: first character upper-cased, all others lower-cased. */
  function Capitalize(s: string): (r: string)
    ensures |r| == |s|
    ensures |s| > 0 ==> r[0] == UpperChar(s[0]) && r[1..] == Lower(s[1..])
  {
    if |s| == 0 then "" else [UpperChar(s[0])] + Lower(s[1..])
  }

  /** `str.lstrip()` */
  function LStrip(s: string): (r: string)
    ensures |r| <= |s| && r == s[|s| - |r|..]
    ensures forall i :: 0 <= i < |s| - |r| ==> IsSpace(s[i])
    ensures |r| > 0 ==> !IsSpace(r[0])
  {
    if |s| > 0 && IsSpace(s[0]) then LStrip(s[1..]) else s
  }

  /** `str.rstrip()` */
  function RStrip(s: string): (r: string)
    ensures |r| <= |s| && r == s[..|r|]
    ensures forall i :: |r| <= i < |s| ==> IsSpace(s[i])
    ensures |r| > 0 ==> !IsSpace(r[|r| - 1])
  {
    if |s| > 0 && IsSpace(s[|s| - 1]) then RStrip(s[..|s| - 1]) else s
  }

  /** `str.strip()` */
  function Strip(s: string): (r: string)
    ensures |r| <= |s|
    ensures |r| > 0 ==> !IsSpace(r[0]) && !IsSpace(r[|r| - 1])
  {
    RStrip(LStrip(s))
  }

  /** Stripping a text that neither starts nor ends with whitespace keeps it. */
  lemma StripKeeps(s: string)
    requires |s| > 0 ==> !IsSpace(s[0]) && !IsSpace(s[|s| - 1])
    ensures Strip(s) == s
  {
  }

  /** `s.replace(a, b)` for single characters. */
  function ReplaceChar(s: string, a: char, b: char): (r: string)
    ensures |r| == |s|
    ensures forall i :: 0 <= i < |s| ==> r[i] == (if s[i] == a then b else s[i])
  {
    if |s| == 0 then "" else [if s[0] == a then b else s[0]] + ReplaceChar(s[1..], a, b)
  }

  /** `s.replace(" ", "_")`, the normalisation used for file and archive names. */
  function Underscored(s: string): (r: string)
    ensures |r| == |s|
    ensures ' ' !in r
    ensures forall i :: 0 <= i < |s| && s[i] != ' ' ==> r[i] == s[i]
  {
    ReplaceChar(s, ' ', '_')
  }

  predicate StartsWith(s: string, p: string) {
    |p| <= |s| && s[..|p|] == p
  }

  /** Number of leading characters of `s` that are not whitespace. */
  function WordLength(s: string): (n: nat)
    ensures n <= |s|
    ensures forall i :: 0 <= i < n ==> !IsSpace(s[i])
    ensures n < |s| ==> IsSpace(s[n])
  {
    if |s| == 0 || IsSpace(s[0]) then 0 else 1 + WordLength(s[1..])
  }

  /** `str.split()` with no separator: the maximal runs of non-whitespace. */
  function Words(s: string): (ws: seq<string>)
    ensures forall i :: 0 <= i < |ws| ==> |ws[i]| > 0 && NoSpace(ws[i])
    decreases |s|
  {
    var t := LStrip(s);
    if |t| == 0 then []
    else
      var n := WordLength(t);
      LeadingWord(t);
      var rest := Words(t[n..]);
      ConsWords(t[..n], rest);
      [t[..n]] + rest
  }

  lemma LeadingWord(t: string)
    requires |t| > 0 && !IsSpace(t[0])
    ensures WordLength(t) > 0 && NoSpace(t[..WordLength(t)])
  {
    var w := t[..WordLength(t)];
    assert forall i :: 0 <= i < |w| ==> w[i] == t[i];
  }

  lemma ConsWords(w: string, ws: seq<string>)
    requires |w| > 0 && NoSpace(w)
    requires forall i :: 0 <= i < |ws| ==> |ws[i]| > 0 && NoSpace(ws[i])
    ensures forall i :: 0 <= i < |[w] + ws| ==> |([w] + ws)[i]| > 0 && NoSpace(([w] + ws)[i])
  {
    assert forall i :: 0 < i < |ws| + 1 ==> ([w] + ws)[i] == ws[i - 1];
  }

  /** `" ".join(ws)` */
  function JoinSpace(ws: seq<string>): string
  {
    if |ws| == 0 then ""
    else if |ws| == 1 then ws[0]
    else ws[0] + " " + JoinSpace(ws[1..])
  }

  /** Joining two non-empty word lists puts exactly one space between them. */
  lemma {:induction false} JoinSpaceAppend(a: seq<string>, b: seq<string>)
    requires |a| > 0 && |b| > 0
    ensures JoinSpace(a + b) == JoinSpace(a) + " " + JoinSpace(b)
  {
    if |a| == 1 {
      assert a + b == [a[0]] + b;
      assert (a + b)[1..] == b;
    } else {
      assert (a + b)[1..] == a[1..] + b;
      JoinSpaceAppend(a[1..], b);
    }
  }

  /** The joined text of non-empty, whitespace-free words is empty exactly
      when there are no words, and it never starts or ends with whitespace. */
  lemma {:induction false} JoinSpaceEnds(ws: seq<string>)
    requires forall i :: 0 <= i < |ws| ==> |ws[i]| > 0 && NoSpace(ws[i])
    ensures (JoinSpace(ws) == "") <==> (|ws| == 0)
    ensures |ws| > 0 ==> |JoinSpace(ws)| > 0
    ensures |ws| > 0 ==> JoinSpace(ws)[0] == ws[0][0]
    ensures |ws| > 0 ==> JoinSpace(ws)[|JoinSpace(ws)| - 1] == ws[|ws| - 1][|ws[|ws| - 1]| - 1]
  {
    if |ws| > 1 {
      JoinSpaceEnds(ws[1..]);
      var rest := JoinSpace(ws[1..]);
      assert JoinSpace(ws) == ws[0] + " " + rest;
      assert ws[1..][|ws[1..]| - 1] == ws[|ws| - 1];
    }
  }

  lemma {:induction false} WordLengthPrefix(w: string, tail: string)
    requires NoSpace(w)
    requires |tail| == 0 || IsSpace(tail[0])
    ensures WordLength(w + tail) == |w|
    decreases |w|
  {
    if |w| == 0 {
      assert w + tail == tail;
    } else {
      assert (w + tail)[1..] == w[1..] + tail;
      WordLengthPrefix(w[1..], tail);
    }
  }

  /** A leading word is split off whole. */
  lemma WordsCons(w: string, tail: string)
    requires |w| > 0 && NoSpace(w)
    requires |tail| == 0 || IsSpace(tail[0])
    ensures Words(w + tail) == [w] + Words(tail)
  {
    var s := w + tail;
    assert LStrip(s) == s;
    WordLengthPrefix(w, tail);
    assert s[..|w|] == w;
    assert s[|w|..] == tail;
  }

  lemma WordsAfterSpace(rest: string)
    requires |rest| > 0 && !IsSpace(rest[0])
    ensures Words(" " + rest) == Words(rest)
  {
    assert (" " + rest)[1..] == rest;
    assert LStrip(" " + rest) == LStrip(rest) == rest;
  }

  /** Splitting joined words gives the words back. */
  lemma {:induction false} WordsOfJoin(ws: seq<string>)
    requires forall i :: 0 <= i < |ws| ==> |ws[i]| > 0 && NoSpace(ws[i])
    ensures Words(JoinSpace(ws)) == ws
    decreases |ws|
  {
    if |ws| == 0 {
      assert JoinSpace(ws) == "";
      assert Words("") == [];
    } else if |ws| == 1 {
      assert |ws[0]| > 0 && NoSpace(ws[0]);
      WordsCons(ws[0], "");
      assert ws[0] + "" == ws[0];
      assert Words(ws[0]) == [ws[0]] + Words("");
      assert Words("") == [];
      assert JoinSpace(ws) == ws[0];
    } else {
      var w := ws[0];
      var tail := ws[1..];
      var rest := JoinSpace(tail);
      var t := " " + rest;
      assert |w| > 0 && NoSpace(w);
      assert forall i :: 0 <= i < |tail| ==> |tail[i]| > 0 && NoSpace(tail[i]) by {
        assert forall i :: 0 <= i < |tail| ==> tail[i] == ws[i + 1];
      }
      assert JoinSpace(ws) == w + t by {
        assert JoinSpace(ws) == w + " " + rest;
      }
      assert Words(t) == tail by {
        JoinSpaceEnds(tail);
        assert |tail[0]| > 0 && NoSpace(tail[0]);
        assert !IsSpace(rest[0]);
        WordsAfterSpace(rest);
        WordsOfJoin(tail);
      }
      assert Words(w + t) == [w] + Words(t) by {
        assert t[0] == ' ';
        WordsCons(w, t);
      }
      HeadTail(ws);
      assert Words(JoinSpace(ws)) == Words(w + t);
    }
  }

  lemma HeadTail<T>(s: seq<T>)
    requires |s| > 0
    ensures [s[0]] + s[1..] == s
  {
  }

  lemma Prepended<T>(h: T, s: seq<T>)
    ensures ([h] + s)[0] == h
    ensures forall i :: 0 <= i < |s| ==> ([h] + s)[i + 1] == s[i]
  {
  }

  lemma LowerTwice(s: string)
    ensures Lower(Lower(s)) == Lower(s)
  {
    assert forall i :: 0 <= i < |s| ==> LowerChar(LowerChar(s[i])) == LowerChar(s[i]);
  }

  lemma UpperTwice(s: string)
    ensures Upper(Upper(s)) == Upper(s)
  {
    assert forall i :: 0 <= i < |s| ==> UpperChar(UpperChar(s[i])) == UpperChar(s[i]);
  }

  /** Capitalising twice is capitalising once. */
  lemma CapitalizeTwice(s: string)
    ensures Capitalize(Capitalize(s)) == Capitalize(s)
  {
    if |s| > 0 {
      LowerTwice(s[1..]);
    }
  }

  /** Capitalising keeps a word a word: case maps never touch whitespace. */
  lemma CapitalizeKeepsWord(w: string)
    requires |w| > 0 && NoSpace(w)
    ensures |Capitalize(w)| > 0 && NoSpace(Capitalize(w))
  {
    var r := Capitalize(w);
    forall i | 0 <= i < |r|
      ensures !IsSpace(r[i])
    {
      if i > 0 {
        assert r[i] == r[1..][i - 1] == Lower(w[1..])[i - 1];
      }
    }
  }

  /** Upper-casing then lower-casing is lower-casing. */
  lemma LowerOfUpper(s: string)
    ensures Lower(Upper(s)) == Lower(s)
  {
    assert forall i :: 0 <= i < |s| ==> LowerChar(UpperChar(s[i])) == LowerChar(s[i]);
  }

  /** Lower-casing never turns whitespace into text or text into whitespace,
      so it commutes with stripping. */
  lemma {:induction false} LStripLower(s: string)
    ensures LStrip(Lower(s)) == Lower(LStrip(s))
    decreases |s|
  {
    if |s| > 0 && IsSpace(s[0]) {
      assert IsSpace(Lower(s)[0]);
      assert Lower(s)[1..] == Lower(s[1..]);
      assert LStrip(Lower(s)) == LStrip(Lower(s[1..]));
      LStripLower(s[1..]);
    } else if |s| > 0 {
      assert !IsSpace(Lower(s)[0]);
      assert LStrip(Lower(s)) == Lower(s);
    }
  }

  lemma {:induction false} RStripLower(s: string)
    ensures RStrip(Lower(s)) == Lower(RStrip(s))
    decreases |s|
  {
    if |s| > 0 && IsSpace(s[|s| - 1]) {
      assert IsSpace(Lower(s)[|s| - 1]);
      assert Lower(s)[..|s| - 1] == Lower(s[..|s| - 1]);
      assert RStrip(Lower(s)) == RStrip(Lower(s[..|s| - 1]));
      RStripLower(s[..|s| - 1]);
    } else if |s| > 0 {
      assert !IsSpace(Lower(s)[|s| - 1]);
      assert RStrip(Lower(s)) == Lower(s);
    }
  }

  lemma StripLower(s: string)
    ensures Strip(Lower(s)) == Lower(Strip(s))
  {
    LStripLower(s);
    RStripLower(LStrip(s));
  }

  /** `s.split(" ", 1)`: the text before the first space and, when there is
      a space, everything after it. */
  function SplitOnceAtSpace(s: string): (parts: seq<string>)
    ensures 1 <= |parts| <= 2
    ensures ' ' !in parts[0]
    ensures |parts| == 1 <==> ' ' !in s
    ensures |parts| == 1 ==> parts[0] == s
    ensures |parts| == 2 ==> s == parts[0] + " " + parts[1]
  {
    if |s| == 0 then [s]
    else if s[0] == ' ' then ["", s[1..]]
    else
      var rest := SplitOnceAtSpace(s[1..]);
      if |rest| == 1 then [s]
      else
        assert s == [s[0]] + s[1..];
        [[s[0]] + rest[0], rest[1]]
  }

  /** `s.split(".")[-1]`: the text after the last dot, or all of `s`. */
  function AfterLastDot(s: string): (r: string)
    ensures '.' !in r
    ensures |r| <= |s| && r == s[|s| - |r|..]
    ensures '.' !in s ==> r == s
    ensures '.' in s ==> s[|s| - |r| - 1] == '.'
  {
    if |s| == 0 then ""
    else if s[|s| - 1] == '.' then ""
    else
      var r := AfterLastDot(s[..|s| - 1]);
      assert s[..|s| - 1][|s| - 1 - |r|..] == s[|s| - 1 - |r|..|s| - 1];
      if '.' in s[..|s| - 1] then r + [s[|s| - 1]]
      else
        assert '.' !in s by {
          assert forall i :: 0 <= i < |s| - 1 ==> s[i] == s[..|s| - 1][i];
        }
        s
  }

  /** The extension of `stem + "." + ext` is `ext` when `ext` has no dot. */
  lemma AfterLastDotOfExtension(stem: string, ext: string)
    requires '.' !in ext
    ensures AfterLastDot(stem + "." + ext) == ext
  {
    var t := stem + "." + ext;
    var r := AfterLastDot(t);
    assert t[|t| - |ext| - 1] == '.';
    assert t[|t| - |ext|..] == ext;
    assert '.' in t;
    if |r| != |ext| {
      assert false;
    }
  }

  /** The characters `str.splitlines()` breaks at: \n, \r, \v, \f, the
      separators 0x1C..0x1E, NEL (0x85) and the Unicode line and paragraph
      separators. */
  predicate IsLineBreak(c: char) {
    c == '\n' || c == '\r' || c == '\U{0B}' || c == '\U{0C}' || ('\U{1C}' <= c <= '\U{1E}')
    || c == '\U{85}' || c == '\U{2028}' || c == '\U{2029}'
  }

  predicate NoLineBreak(s: string) {
    forall k :: 0 <= k < |s| ==> !IsLineBreak(s[k])
  }

  /** The index of the first line break, or |s| when there is none. */
  function FirstBreak(s: string): (i: nat)
    ensures i <= |s|
    ensures i < |s| ==> IsLineBreak(s[i])
    ensures forall k :: 0 <= k < i ==> !IsLineBreak(s[k])
  {
    if |s| == 0 || IsLineBreak(s[0]) then 0 else 1 + FirstBreak(s[1..])
  }

  /** The length of the break `s` starts with: "\r\n" is one break. */
  function BreakLength(s: string): (n: nat)
    requires |s| > 0 && IsLineBreak(s[0])
    ensures 1 <= n <= |s|
  {
    if s[0] == '\r' && |s| > 1 && s[1] == '\n' then 2 else 1
  }

  /** `str.splitlines()`: the text cut at each line break, the breaks
      dropped; a break at the very end opens no further line. */
  function SplitLines(s: string): (lines: seq<string>)
    ensures forall i :: 0 <= i < |lines| ==> NoLineBreak(lines[i])
    ensures |s| == 0 <==> |lines| == 0
    decreases |s|
  {
    if |s| == 0 then []
    else
      var i := FirstBreak(s);
      if i == |s| then [s]
      else [s[..i]] + SplitLines(s[i + BreakLength(s[i..])..])
  }

  function FirstIndex(s: string, c: char): (i: nat)
    requires c in s
    ensures i < |s| && s[i] == c && c !in s[..i]
  {
    if s[0] == c then 0 else 1 + FirstIndex(s[1..], c)
  }

  function JoinLines(lines: seq<string>): string
  {
    if |lines| == 0 then ""
    else if |lines| == 1 then lines[0]
    else lines[0] + "\n" + JoinLines(lines[1..])
  }

  /** A text whose only line breaks are '\n' comes back when its lines are
      joined with '\n', unless it ended with a break (which `splitlines`
      drops). */
  lemma {:induction false} SplitLinesRoundTrip(s: string)
    requires forall k :: 0 <= k < |s| && IsLineBreak(s[k]) ==> s[k] == '\n'
    requires |s| == 0 || s[|s| - 1] != '\n'
    ensures JoinLines(SplitLines(s)) == s
    decreases |s|
  {
    if |s| > 0 && FirstBreak(s) < |s| {
      var i := FirstBreak(s);
      var rest := s[i + 1..];
      assert s[i..][0] == '\n';
      assert |rest| > 0;
      assert forall k :: 0 <= k < |rest| ==> rest[k] == s[i + 1 + k];
      SplitLinesRoundTrip(rest);
      JoinLinesCons(s[..i], SplitLines(rest));
      CutAt(s, i);
    }
  }

  /** The text with every break written as '\n' ("\r\n" counting as one). */
  function NormalizeBreaks(s: string): (t: string)
    decreases |s|
  {
    if |s| == 0 then ""
    else
      var i := FirstBreak(s);
      if i == |s| then s
      else s[..i] + "\n" + NormalizeBreaks(s[i + BreakLength(s[i..])..])
  }

  /** Whatever its breaks, a text that does not end in one comes back from
      its lines joined with '\n' with each break written as '\n'. */
  lemma {:induction false} SplitLinesJoinedBack(s: string)
    requires |s| == 0 || !IsLineBreak(s[|s| - 1])
    ensures JoinLines(SplitLines(s)) == NormalizeBreaks(s)
    decreases |s|
  {
    if |s| > 0 && FirstBreak(s) < |s| {
      var i := FirstBreak(s);
      var rest := s[i + BreakLength(s[i..])..];
      assert |rest| > 0 by {
        if BreakLength(s[i..]) == 2 {
          assert s[i..][1] == s[i + 1];
        }
      }
      assert rest[|rest| - 1] == s[|s| - 1];
      SplitLinesJoinedBack(rest);
      JoinLinesCons(s[..i], SplitLines(rest));
    }
  }

  /** Normalising changes nothing in a text whose only breaks are '\n'. */
  lemma {:induction false} NormalizeKeepsNewlines(s: string)
    requires forall k :: 0 <= k < |s| && IsLineBreak(s[k]) ==> s[k] == '\n'
    ensures NormalizeBreaks(s) == s
    decreases |s|
  {
    if |s| > 0 && FirstBreak(s) < |s| {
      var i := FirstBreak(s);
      var rest := s[i + 1..];
      assert s[i..][0] == '\n';
      assert forall k :: 0 <= k < |rest| ==> rest[k] == s[i + 1 + k];
      NormalizeKeepsNewlines(rest);
      CutAt(s, i);
    }
  }

  /** And the other way: lines without breaks, joined with '\n', split back
      into the same lines, unless the last one is empty. */
  lemma {:induction false} JoinLinesSplitBack(lines: seq<string>)
    requires forall i :: 0 <= i < |lines| ==> NoLineBreak(lines[i])
    requires |lines| == 0 || lines[|lines| - 1] != ""
    ensures SplitLines(JoinLines(lines)) == lines
    decreases |lines|
  {
    if |lines| == 1 {
      assert FirstBreak(lines[0]) == |lines[0]|;
    } else if |lines| > 1 {
      var rest := lines[1..];
      JoinLinesSplitBack(rest);
      JoinLinesCons(lines[0], rest);
      SplitAtBreak(lines[0], "\n", JoinLines(rest));
    }
  }

  /** A break sequence: one break character, or "\r\n". */
  predicate IsBreakText(sep: string) {
    sep == "\r\n" || (|sep| == 1 && IsLineBreak(sep[0]))
  }

  /** Whatever the break, the first line ends there and the rest is split
      on its own. */
  lemma SplitAtBreak(a: string, sep: string, b: string)
    requires NoLineBreak(a) && IsBreakText(sep)
    requires |b| > 0 && !(sep == "\r" && b[0] == '\n')
    ensures SplitLines(a + sep + b) == [a] + SplitLines(b)
  {
    var s := a + sep + b;
    BreakAfterPrefix(a, sep + b);
    assert a + sep + b == a + (sep + b);
    BreakLengthOf(sep, b);
    assert s[|a|..] == sep + b;
    assert s[|a| + |sep|..] == (sep + b)[|sep|..];
  }

  /** A prefix free of breaks ends at the first break of what follows. */
  lemma BreakAfterPrefix(a: string, t: string)
    requires NoLineBreak(a) && |t| > 0 && IsLineBreak(t[0])
    ensures FirstBreak(a + t) == |a|
    ensures (a + t)[..|a|] == a && (a + t)[|a|..] == t
  {
    var s := a + t;
    assert s[|a|] == t[0];
    assert forall k :: 0 <= k < |a| ==> s[k] == a[k];
    FirstBreakAt(s, |a|);
    assert s[..|a|] == a;
  }

  /** The break at the head of `sep + b` is `sep` itself. */
  lemma BreakLengthOf(sep: string, b: string)
    requires IsBreakText(sep) && |b| > 0 && !(sep == "\r" && b[0] == '\n')
    ensures |sep + b| > 0 && IsLineBreak((sep + b)[0])
    ensures BreakLength(sep + b) == |sep| && (sep + b)[|sep|..] == b
  {
    var t := sep + b;
    if sep == "\r\n" {
      assert t[0] == '\r' && t[1] == '\n';
    } else {
      assert t[0] == sep[0] && t[1] == b[0];
    }
  }

  lemma FirstBreakAt(s: string, i: nat)
    requires i < |s| && IsLineBreak(s[i])
    requires forall k :: 0 <= k < i ==> !IsLineBreak(s[k])
    ensures FirstBreak(s) == i
  {
  }

  /** A lone "\r" splits a line in two, as "\n" does. */
  lemma CarriageReturnBreaksLine()
    ensures SplitLines("a\rb") == ["a", "b"]
  {
    OneLine("b");
    SplitAtBreak("a", "\r", "b");
    assert "a" + "\r" + "b" == "a\rb";
  }

  /** "\r\n" is a single break, not two. */
  lemma CrLfIsOneBreak()
    ensures SplitLines("a\r\nb") == ["a", "b"]
  {
    OneLine("b");
    SplitAtBreak("a", "\r\n", "b");
    assert "a" + "\r\n" + "b" == "a\r\nb";
  }

  /** Two "\n" in a row leave an empty line between them. */
  lemma BlankLineKept()
    ensures SplitLines("a\n\nb") == ["a", "", "b"]
  {
    LeadingBreak();
    SplitAtBreak("a", "\n", "\nb");
    assert "a" + "\n" + "\nb" == "a\n\nb";
  }

  lemma LeadingBreak()
    ensures SplitLines("\nb") == ["", "b"]
  {
    OneLine("b");
    SplitAtBreak("", "\n", "b");
    assert "" + "\n" + "b" == "\nb";
  }

  lemma OneLine(s: string)
    requires |s| > 0 && NoLineBreak(s)
    ensures SplitLines(s) == [s]
  {
    assert FirstBreak(s) == |s|;
  }

  lemma JoinLinesCons(line: string, lines: seq<string>)
    requires |lines| > 0
    ensures JoinLines([line] + lines) == line + "\n" + JoinLines(lines)
  {
    assert ([line] + lines)[1..] == lines;
  }

  lemma CutAt(s: string, i: nat)
    requires i < |s|
    ensures s == s[..i] + [s[i]] + s[i + 1..]
  {
  }
}
