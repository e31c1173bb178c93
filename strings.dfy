/**
  The Python string built-ins the core uses, over `string` (a sequence of
  Unicode scalar values): `str.split()` with no argument, `str.strip(chars)`,
  an ASCII-only `str.lower()` and `sep.join(parts)`.
 */
module Strings {

  /** The characters Python's `str.split()` and `str.strip()` treat as
      whitespace (those for which `str.isspace()` holds). */
  predicate IsSpace(c: char) {
    IsSpaceCode(c as int)
  }

  predicate IsSpaceCode(x: int) {
    (0x09 <= x <= 0x0D) || (0x1C <= x <= 0x20) || x == 0x85 || x == 0xA0 ||
    x == 0x1680 || (0x2000 <= x <= 0x200A) || x == 0x2028 || x == 0x2029 ||
    x == 0x202F || x == 0x205F || x == 0x3000
  }

  /** The same characters as a set, for `str.strip()` with no argument. */
  const Whitespace: set<char> := set x: int | 0 <= x <= 0x3000 && IsSpaceCode(x) :: x as char

  lemma WhitespaceIsSpace(c: char)
    ensures c in Whitespace <==> IsSpace(c)
  {
    if IsSpace(c) {
      assert (c as int) as char == c;
    }
  }

  predicate NoSpace(w: string) {
    forall i :: 0 <= i < |w| ==> !IsSpace(w[i])
  }

  predicate AllIn(s: string, cs: set<char>) {
    forall i :: 0 <= i < |s| ==> s[i] in cs
  }

  // ---------------------------------------------------------------------------
  // str.split()

  /** Length of the longest prefix of `s` that holds no whitespace. */
  function WordLength(s: string): (n: nat)
    ensures n <= |s|
    ensures forall i :: 0 <= i < n ==> !IsSpace(s[i])
    ensures n < |s| ==> IsSpace(s[n])
    ensures s != [] && !IsSpace(s[0]) ==> n >= 1
  {
    if s == [] || IsSpace(s[0]) then 0 else 1 + WordLength(s[1..])
  }

  /** `s.split()`: the maximal runs of non-whitespace characters, in order. */
  function Split(s: string): seq<string>
    decreases |s|
  {
    if s == [] then []
    else if IsSpace(s[0]) then Split(s[1..])
    else
      var n := WordLength(s);
      [s[..n]] + Split(s[n..])
  }

  /** The characters of `s` that are not whitespace, in order. */
  function NonSpace(s: string): string {
    if s == [] then []
    else (if IsSpace(s[0]) then [] else [s[0]]) + NonSpace(s[1..])
  }

  function Concat(ws: seq<string>): string {
    if ws == [] then [] else ws[0] + Concat(ws[1..])
  }

  /** `split()` never yields an empty word nor one that holds whitespace. */
  lemma {:induction false} SplitWords(s: string)
    ensures forall w :: w in Split(s) ==> w != [] && NoSpace(w)
    decreases |s|
  {
    if s == [] {
    } else if IsSpace(s[0]) {
      SplitWords(s[1..]);
    } else {
      var n := WordLength(s);
      SplitWords(s[n..]);
    }
  }

  lemma {:induction false} NonSpaceAppend(a: string, b: string)
    ensures NonSpace(a + b) == NonSpace(a) + NonSpace(b)
  {
    if a == [] {
      assert a + b == b;
    } else {
      assert (a + b)[1..] == a[1..] + b;
      NonSpaceAppend(a[1..], b);
    }
  }

  lemma {:induction false} NonSpaceOfWord(w: string)
    requires NoSpace(w)
    ensures NonSpace(w) == w
  {
    if w != [] {
      NonSpaceOfWord(w[1..]);
    }
  }

  /** The words of `split()` hold exactly the non-whitespace characters of the
      input, in their original order: nothing else is dropped or reordered. */
  lemma {:induction false} SplitConcat(s: string)
    ensures Concat(Split(s)) == NonSpace(s)
    decreases |s|
  {
    if s == [] {
    } else if IsSpace(s[0]) {
      SplitConcat(s[1..]);
    } else {
      var n := WordLength(s);
      calc {
        Concat(Split(s));
        s[..n] + Concat(Split(s[n..]));
        { SplitConcat(s[n..]); }
        s[..n] + NonSpace(s[n..]);
        { NonSpaceOfWord(s[..n]); }
        NonSpace(s[..n]) + NonSpace(s[n..]);
        { NonSpaceAppend(s[..n], s[n..]); assert s[..n] + s[n..] == s; }
        NonSpace(s);
      }
    }
  }

  lemma {:induction false} WordLengthOfWordThenSpace(w: string, rest: string)
    requires NoSpace(w)
    ensures WordLength(w + " " + rest) == |w|
  {
    if w != [] {
      assert (w + " " + rest)[1..] == w[1..] + " " + rest;
      WordLengthOfWordThenSpace(w[1..], rest);
    }
  }

  lemma {:induction false} WordLengthOfWord(w: string)
    requires NoSpace(w)
    ensures WordLength(w) == |w|
  {
    if w != [] {
      WordLengthOfWord(w[1..]);
    }
  }

  /** Joining non-empty whitespace-free words with single spaces and splitting
      again gives the words back. */
  lemma {:induction false} SplitJoinRoundTrip(ws: seq<string>)
    requires forall i :: 0 <= i < |ws| ==> ws[i] != [] && NoSpace(ws[i])
    ensures Split(Join(ws, " ")) == ws
  {
    if |ws| == 0 {
    } else if |ws| == 1 {
      var w := ws[0];
      WordLengthOfWord(w);
      assert w[..|w|] == w && w[|w|..] == [];
      assert Split(w) == [w] + Split([]);
      assert ws == [w];
    } else {
      var w, rest := ws[0], Join(ws[1..], " ");
      var s := w + " " + rest;
      assert Join(ws, " ") == s;
      WordLengthOfWordThenSpace(w, rest);
      assert s[..|w|] == w;
      assert s[|w|..] == " " + rest;
      assert (" " + rest)[1..] == rest;
      SplitJoinRoundTrip(ws[1..]);
    }
  }

  // ---------------------------------------------------------------------------
  // str.strip(chars)

  /** Number of leading characters of `s` that belong to `cs`. */
  function Lead(s: string, cs: set<char>): (n: nat)
    ensures n <= |s|
  {
    if s == [] || s[0] !in cs then 0 else 1 + Lead(s[1..], cs)
  }

  /** The leading run is made of members of `cs` and ends at a non-member
      or at the end. */
  lemma {:induction false} LeadShape(s: string, cs: set<char>)
    ensures forall k :: 0 <= k < Lead(s, cs) ==> s[k] in cs
    ensures Lead(s, cs) < |s| ==> s[Lead(s, cs)] !in cs
  {
    if s != [] && s[0] in cs {
      LeadShape(s[1..], cs);
    }
  }

  /** Number of trailing characters of `s` that belong to `cs`. */
  function Trail(s: string, cs: set<char>): (n: nat)
    ensures n <= |s|
  {
    if s == [] || s[|s| - 1] !in cs then 0 else 1 + Trail(s[..|s| - 1], cs)
  }

  /** The trailing run is made of members of `cs` and starts after a
      non-member or at the start. */
  lemma {:induction false} TrailShape(s: string, cs: set<char>)
    ensures forall k :: |s| - Trail(s, cs) <= k < |s| ==> s[k] in cs
    ensures Trail(s, cs) < |s| ==> s[|s| - 1 - Trail(s, cs)] !in cs
  {
    if s != [] && s[|s| - 1] in cs {
      TrailShape(s[..|s| - 1], cs);
    }
  }

  /** `s.strip(cs)`: `s` without its leading and trailing characters from `cs`. */
  function Strip(s: string, cs: set<char>): string {
    var i := Lead(s, cs);
    s[i..][..|s| - i - Trail(s[i..], cs)]
  }

  /** The result of `strip` is the slice of `s` between a prefix and a suffix
      made only of characters of `cs`, it neither begins nor ends with one of
      them, and it is empty exactly when every character of `s` is in `cs`. */
  lemma StripShape(s: string, cs: set<char>)
    ensures var r := Strip(s, cs);
            exists i, j :: 0 <= i <= j <= |s| && r == s[i..j] && AllIn(s[..i], cs) && AllIn(s[j..], cs)
    ensures var r := Strip(s, cs);
            r == [] || (r[0] !in cs && r[|r| - 1] !in cs)
    ensures Strip(s, cs) == [] <==> AllIn(s, cs)
  {
    var i := Lead(s, cs);
    var t := s[i..];
    var j := Trail(t, cs);
    LeadShape(s, cs);
    TrailShape(t, cs);
    assert s[i..][..|t| - j] == s[i..i + |t| - j];
    assert AllIn(s[..i], cs);
    assert AllIn(s[i + |t| - j..], cs) by {
      var u := s[i + |t| - j..];
      forall k | 0 <= k < |u| ensures u[k] in cs {
        assert u[k] == t[|t| - j + k];
      }
    }
    assert i < |s| ==> j < |t| by {
      if i < |s| {
        assert t[0] == s[i];
      }
    }
  }

  // ---------------------------------------------------------------------------
  // str.lower(), restricted to ASCII

  function LowerChar(c: char): char {
    if 'A' <= c <= 'Z' then (c as int + 32) as char else c
  }

  function Lower(s: string): (r: string)
    ensures |r| == |s|
    ensures forall i :: 0 <= i < |s| ==> r[i] == LowerChar(s[i])
  {
    seq(|s|, i requires 0 <= i < |s| => LowerChar(s[i]))
  }

  /** Lowering is idempotent and leaves no upper-case ASCII letter. */
  lemma LowerIdempotent(s: string)
    ensures Lower(Lower(s)) == Lower(s)
    ensures forall i :: 0 <= i < |s| ==> !('A' <= Lower(s)[i] <= 'Z')
  {
    assert forall c: char :: LowerChar(LowerChar(c)) == LowerChar(c);
  }

  lemma {:induction false} WordLengthLower(s: string)
    ensures WordLength(Lower(s)) == WordLength(s)
  {
    if s != [] {
      assert Lower(s)[1..] == Lower(s[1..]);
      WordLengthLower(s[1..]);
    }
  }

  lemma LowerSlices(s: string, n: nat)
    requires n <= |s|
    ensures Lower(s)[..n] == Lower(s[..n])
    ensures Lower(s)[n..] == Lower(s[n..])
  {
  }

  /** A set of characters that lowering neither enters nor leaves. */
  ghost predicate CaseBlind(cs: set<char>) {
    forall c: char {:trigger LowerChar(c)} :: LowerChar(c) in cs <==> c in cs
  }

  lemma {:induction false} LeadLower(s: string, cs: set<char>)
    requires CaseBlind(cs)
    ensures Lead(Lower(s), cs) == Lead(s, cs)
  {
    if s != [] {
      assert Lower(s)[1..] == Lower(s[1..]);
      assert Lower(s)[0] == LowerChar(s[0]);
      LeadLower(s[1..], cs);
    }
  }

  lemma {:induction false} TrailLower(s: string, cs: set<char>)
    requires CaseBlind(cs)
    ensures Trail(Lower(s), cs) == Trail(s, cs)
  {
    if s != [] {
      LowerSlices(s, |s| - 1);
      assert Lower(s)[|s| - 1] == LowerChar(s[|s| - 1]);
      TrailLower(s[..|s| - 1], cs);
    }
  }

  lemma TrailOfLowerSuffix(s: string, cs: set<char>, i: nat)
    requires CaseBlind(cs) && i <= |s|
    ensures Trail(Lower(s)[i..], cs) == Trail(s[i..], cs)
  {
    LowerSlices(s, i);
    TrailLower(s[i..], cs);
  }

  /** A string of the same length, whose leading and trailing runs are as
      long as those of `s`, is stripped at the same offsets. */
  lemma StripAtOffsetsOf(s: string, l: string, cs: set<char>)
    requires |l| == |s| && Lead(l, cs) == Lead(s, cs)
    requires Trail(l[Lead(s, cs)..], cs) == Trail(s[Lead(s, cs)..], cs)
    ensures Lead(s, cs) <= |s| - Trail(s[Lead(s, cs)..], cs)
    ensures Strip(l, cs) == l[Lead(s, cs)..|s| - Trail(s[Lead(s, cs)..], cs)]
  {
    var i := Lead(s, cs);
    assert l[i..][..|s| - i - Trail(s[i..], cs)] == l[i..|s| - Trail(s[i..], cs)];
  }

  /** Stripping a case-blind set and lowering commute. */
  lemma StripLowerCommute(s: string, cs: set<char>)
    requires CaseBlind(cs)
    ensures Strip(Lower(s), cs) == Lower(Strip(s, cs))
  {
    var i := Lead(s, cs);
    LeadLower(s, cs);
    TrailOfLowerSuffix(s, cs, i);
    StripAtOffsetsOf(s, Lower(s), cs);
    StripAtOffsetsOf(s, s, cs);
    LowerMiddle(s, i, |s| - Trail(s[i..], cs));
  }

  lemma LowerMiddle(s: string, i: nat, m: nat)
    requires i <= m <= |s|
    ensures Lower(s)[i..m] == Lower(s[i..m])
  {
    var a, b := Lower(s)[i..m], Lower(s[i..m]);
    forall k | 0 <= k < |a| ensures a[k] == b[k] {
      assert a[k] == Lower(s)[i + k];
      assert s[i..m][k] == s[i + k];
    }
  }

  /** Lower-casing commutes with `split()`: ASCII lowering never creates or
      removes whitespace. */
  lemma {:induction false} SplitLower(s: string)
    ensures |Split(Lower(s))| == |Split(s)|
    ensures forall i :: 0 <= i < |Split(s)| ==> Split(Lower(s))[i] == Lower(Split(s)[i])
    decreases |s|
  {
    if s == [] {
    } else if IsSpace(s[0]) {
      LowerSlices(s, 1);
      SplitLower(s[1..]);
    } else {
      var n := WordLength(s);
      WordLengthLower(s);
      LowerSlices(s, n);
      SplitLower(s[n..]);
    }
  }

  // ---------------------------------------------------------------------------
  // sep.join(parts)

  /** `sep.join(parts)`. */
  function Join(parts: seq<string>, sep: string): string {
    if |parts| == 0 then ""
    else if |parts| == 1 then parts[0]
    else parts[0] + sep + Join(parts[1..], sep)
  }

  /** Where `parts[i]` begins in `Join(parts, sep)`. */
  function Offset(parts: seq<string>, sep: string, i: nat): nat
    requires i <= |parts|
  {
    if i == 0 then 0 else |parts[0]| + |sep| + Offset(parts[1..], sep, i - 1)
  }

  function TotalLength(parts: seq<string>): nat {
    if parts == [] then 0 else |parts[0]| + TotalLength(parts[1..])
  }

  /** Appending a part adds one separator and the part at the end. */
  lemma {:induction false} JoinSnoc(parts: seq<string>, p: string, sep: string)
    requires parts != []
    ensures Join(parts + [p], sep) == Join(parts, sep) + sep + p
  {
    if |parts| == 1 {
      assert parts + [p] == [parts[0], p];
    } else {
      assert (parts + [p])[1..] == parts[1..] + [p];
      JoinSnoc(parts[1..], p, sep);
    }
  }

  /** `Join` is the parts laid out one after the other with one separator
      per gap: its length is their total length plus one separator per gap. */
  lemma {:induction false} JoinLength(parts: seq<string>, sep: string)
    requires parts != []
    ensures |Join(parts, sep)| == TotalLength(parts) + (|parts| - 1) * |sep|
  {
    if |parts| > 1 {
      JoinLength(parts[1..], sep);
    }
  }

  /** Part `i` sits at `Offset(parts, sep, i)` in `Join(parts, sep)`. */
  lemma {:induction false} JoinPartAt(parts: seq<string>, sep: string, i: nat)
    requires i < |parts|
    ensures Offset(parts, sep, i) + |parts[i]| <= |Join(parts, sep)|
    ensures Join(parts, sep)[Offset(parts, sep, i) .. Offset(parts, sep, i) + |parts[i]|] == parts[i]
  {
    var j := Join(parts, sep);
    if |parts| == 1 {
      assert j[0..|parts[0]|] == parts[0];
    } else {
      var tail := parts[1..];
      var jt := Join(tail, sep);
      assert j == parts[0] + sep + jt;
      if i == 0 {
        assert j[0..|parts[0]|] == parts[0];
      } else {
        JoinPartAt(tail, sep, i - 1);
        var d, o := |parts[0]| + |sep|, Offset(tail, sep, i - 1);
        assert tail[i - 1] == parts[i];
        assert j[d + o .. d + o + |parts[i]|] == jt[o .. o + |parts[i]|];
      }
    }
  }

  /** Between part `i` and part `i + 1` of `Join(parts, sep)` stands exactly
      one `sep`. */
  lemma {:induction false} JoinSepAt(parts: seq<string>, sep: string, i: nat)
    requires i + 1 < |parts|
    ensures Offset(parts, sep, i + 1) == Offset(parts, sep, i) + |parts[i]| + |sep|
    ensures Offset(parts, sep, i + 1) <= |Join(parts, sep)|
    ensures Join(parts, sep)[Offset(parts, sep, i) + |parts[i]| .. Offset(parts, sep, i + 1)] == sep
  {
    var j := Join(parts, sep);
    var tail := parts[1..];
    var jt := Join(tail, sep);
    assert j == parts[0] + sep + jt;
    var d := |parts[0]| + |sep|;
    if i == 0 {
      assert j[|parts[0]| .. d] == sep;
    } else {
      JoinSepAt(tail, sep, i - 1);
      var o := Offset(tail, sep, i - 1);
      assert tail[i - 1] == parts[i];
      assert j[d + o + |parts[i]| .. d + Offset(tail, sep, i)] == jt[o + |parts[i]| .. Offset(tail, sep, i)];
    }
  }
}
