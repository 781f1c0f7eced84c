/** The Python text operations the recommender's tag splitter uses:
    `str.strip()` and `re.split(r"[\n;,]+", s)`. */
module PyText {
  import opened JsString

  /** `c.isspace()`: the characters Python counts as white space. */
  predicate IsPySpace(c: char) {
    || c == ' ' || ('\t' <= c <= '\r') || ('\U{1c}' <= c <= '\U{1f}')
    || c == '\U{85}' || c == '\U{a0}' || c == '\U{1680}'
    || ('\U{2000}' <= c <= '\U{200a}') || c == '\U{2028}' || c == '\U{2029}'
    || c == '\U{202f}' || c == '\U{205f}' || c == '\U{3000}'
  }

  /** No white space at either end. */
  predicate Stripped(s: string) {
    |s| == 0 || (!IsPySpace(s[0]) && !IsPySpace(s[|s| - 1]))
  }

  function StripStart(s: string): (r: string)
    ensures |r| <= |s| && r == s[|s| - |r|..]
    ensures |r| > 0 ==> !IsPySpace(r[0])
    ensures forall i :: 0 <= i < |s| - |r| ==> IsPySpace(s[i])
  {
    if |s| == 0 then ""
    else if IsPySpace(s[0]) then
      var r := StripStart(s[1..]);
      assert forall i :: 1 <= i < |s| ==> s[1..][i - 1] == s[i];
      r
    else s
  }

  function StripEnd(s: string): (r: string)
    ensures |r| <= |s| && r == s[..|r|]
    ensures |r| > 0 ==> !IsPySpace(r[|r| - 1])
    ensures forall i :: |r| <= i < |s| ==> IsPySpace(s[i])
  {
    if |s| == 0 then ""
    else if IsPySpace(s[|s| - 1]) then StripEnd(s[..|s| - 1])
    else s
  }

  /** `s.strip()`: the text without its leading and trailing white space. */
  function Strip(s: string): (r: string)
    ensures Stripped(r)
    ensures forall c :: c in r ==> c in s
    ensures Stripped(s) ==> r == s
    ensures r == "" <==> forall i :: 0 <= i < |s| ==> IsPySpace(s[i])
  {
    var t := StripStart(s);
    var r := StripEnd(t);
    assert forall c :: c in r ==> c in s by {
      forall c | c in r
        ensures c in s
      {
        var i :| 0 <= i < |r| && r[i] == c;
        assert s[|s| - |t| + i] == c;
      }
    }
    r
  }

  /** A character of the class `[\n;,]`. */
  predicate IsTagSep(c: char) {
    c == '\n' || c == ';' || c == ','
  }

  predicate NoTagSep(s: string) {
    forall c :: c in s ==> !IsTagSep(c)
  }

  /** Position of the first separator, or `|s|` when there is none. */
  function SepIndex(s: string): (i: nat)
    ensures i <= |s|
    ensures i < |s| ==> IsTagSep(s[i])
    ensures NoTagSep(s[..i])
  {
    if |s| == 0 then 0
    else if IsTagSep(s[0]) then 0
    else
      var i := SepIndex(s[1..]);
      assert s[..i + 1] == [s[0]] + s[1..][..i];
      i + 1
  }

  /** Length of the run of separators that `s` starts with. */
  function RunLength(s: string): (n: nat)
    ensures n <= |s|
    ensures forall i :: 0 <= i < n ==> IsTagSep(s[i])
    ensures n < |s| ==> !IsTagSep(s[n])
  {
    if |s| == 0 || !IsTagSep(s[0]) then 0
    else
      var n := RunLength(s[1..]);
      assert forall i :: 1 <= i < n + 1 ==> s[i] == s[1..][i - 1];
      n + 1
  }

  /** `re.split(r"[\n;,]+", s)`: the texts between maximal runs of
      separators, with an empty first or last part when `s` starts or ends
      with a separator. */
  function Segments(s: string): (parts: seq<string>)
    ensures |parts| >= 1
    ensures forall k :: 0 <= k < |parts| ==> NoTagSep(parts[k])
    ensures forall k, c :: 0 <= k < |parts| && c in parts[k] ==> c in s
    decreases |s|
  {
    var i := SepIndex(s);
    if i == |s| then
      assert s[..i] == s;
      [s]
    else
      var j := i + RunLength(s[i..]);
      assert j > i;
      var rest := Segments(s[j..]);
      assert forall c :: c in s[..i] ==> c in s;
      assert forall c :: c in s[j..] ==> c in s;
      [s[..i]] + rest
  }

  /** A text without separators is its own single segment. */
  lemma SegmentsAbsent(s: string)
    requires NoTagSep(s)
    ensures Segments(s) == [s]
  {
  }

  lemma {:induction false} SepIndexPrefix(a: string, rest: string)
    requires NoTagSep(a)
    ensures SepIndex(a + ";" + rest) == |a|
  {
    if |a| > 0 {
      assert a[0] in a;
      assert (a + ";" + rest)[1..] == a[1..] + ";" + rest;
      SepIndexPrefix(a[1..], rest);
    }
  }

  lemma {:induction false} JoinStart(parts: seq<string>, sep: string)
    requires |parts| >= 1 && |parts[0]| > 0
    ensures |Join(parts, sep)| > 0 && Join(parts, sep)[0] == parts[0][0]
  {
  }

  lemma {:induction false} JoinEnd(parts: seq<string>, sep: string)
    requires |parts| >= 1 && |parts[|parts| - 1]| > 0
    ensures |Join(parts, sep)| > 0
    ensures Join(parts, sep)[|Join(parts, sep)| - 1] == parts[|parts| - 1][|parts[|parts| - 1]| - 1]
  {
    if |parts| > 1 {
      assert parts[1..][|parts[1..]| - 1] == parts[|parts| - 1];
      JoinEnd(parts[1..], sep);
    }
  }

  /** A join that starts and ends with stripped non-empty texts is stripped. */
  lemma JoinStripped(parts: seq<string>, sep: string)
    requires |parts| >= 1 && parts[0] != "" && Stripped(parts[0])
    requires parts[|parts| - 1] != "" && Stripped(parts[|parts| - 1])
    ensures Join(parts, sep) != "" && Stripped(Join(parts, sep))
  {
    JoinStart(parts, sep);
    JoinEnd(parts, sep);
  }

  /** One `;` between a separator-free text and a text that does not start
      with a separator splits off exactly the first text. */
  lemma {:induction false} SegmentsStep(a: string, rest: string)
    requires NoTagSep(a)
    requires |rest| > 0 && !IsTagSep(rest[0])
    ensures Segments(a + ";" + rest) == [a] + Segments(rest)
  {
    var s := a + ";" + rest;
    SepIndexPrefix(a, rest);
    assert s[|a|..] == ";" + rest;
    assert RunLength(s[|a|..]) == 1 by {
      assert s[|a|..][1] == rest[0];
    }
    assert s[..|a|] == a;
    assert s[|a| + 1..] == rest;
  }

  /** Splitting `;`-joined non-empty separator-free texts gives them back. */
  lemma {:induction false} SegmentsJoin(ts: seq<string>)
    requires |ts| >= 1
    requires forall k :: 0 <= k < |ts| ==> ts[k] != "" && NoTagSep(ts[k])
    ensures Segments(Join(ts, ";")) == ts
  {
    if |ts| == 1 {
      SegmentsAbsent(ts[0]);
    } else {
      var rest := Join(ts[1..], ";");
      assert Join(ts, ";") == ts[0] + ";" + rest;
      JoinStart(ts[1..], ";");
      assert ts[1][0] in ts[1];
      SegmentsStep(ts[0], rest);
      SegmentsJoin(ts[1..]);
    }
  }
}
