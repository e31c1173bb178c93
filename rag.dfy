/**
  The naive keyword-overlap retriever of the claim pipeline
  (`app/rag.py`): tokenizing text into a set of lower-cased words, scoring
  policy snippets by the size of their token overlap with the query, keeping
  the best `k` in a stable descending order, and rendering the chosen
  snippets as one context string.
 */
module Rag {
  import opened Json
  import opened Strings

  /** A policy snippet is a JSON object; only "title" and "text" are read. */
  type Policy = Dict

  /** The characters `_tokenize` strips from both ends of every word. */
  const Punctuation: set<char> :=
    {'.', ',', ';', ':', '!', '?', '(', ')', '[', ']', '{', '}', '"', '\''}

  // ---------------------------------------------------------------------------
  // _tokenize

  /** The token a single word contributes. */
  function Token(w: string): string {
    Lower(Strip(w, Punctuation))
  }

  /** `_tokenize(text)`: the set of tokens of the whitespace-split words of
      `text` whose `strip()` is non-empty. */
  function Tokenize(text: string): set<string> {
    set w | w in Split(text) && Strip(w, Whitespace) != [] :: Token(w)
  }

  /** The `if t.strip()` filter never removes a word: `split()` yields no blank
      words. So a string is a token exactly when it is the token of some word. */
  lemma TokenizeFilterIsVacuous(text: string)
    ensures Tokenize(text) == set w | w in Split(text) :: Token(w)
  {
    SplitWords(text);
    forall w | w in Split(text) ensures Strip(w, Whitespace) != [] {
      WhitespaceIsSpace(w[0]);
      StripShape(w, Whitespace);
    }
  }

  /** What a token looks like: no upper-case ASCII letter, no whitespace,
      and no punctuation at either end. */
  predicate TokenLike(t: string) {
    (forall i :: 0 <= i < |t| ==> !('A' <= t[i] <= 'Z') && !IsSpace(t[i])) &&
    (t == [] || (t[0] !in Punctuation && t[|t| - 1] !in Punctuation))
  }

  lemma LowerKeepsSpace(c: char)
    ensures IsSpace(LowerChar(c)) <==> IsSpace(c)
  {
  }

  /** Lowering a stripped, whitespace-free word gives something token-like. */
  lemma LowerOfStripped(r: string)
    requires NoSpace(r) && (r == [] || (r[0] !in Punctuation && r[|r| - 1] !in Punctuation))
    ensures TokenLike(Lower(r))
  {
    LowerIdempotent(r);
    forall i | 0 <= i < |r| ensures !IsSpace(Lower(r)[i]) {
      LowerKeepsSpace(r[i]);
    }
    if r != [] {
      LowerKeepsPunctuation(r[0]);
      LowerKeepsPunctuation(r[|r| - 1]);
    }
  }

  /** The token of a whitespace-free word is token-like; a word made only of
      punctuation gives the empty token, and only such a word does. */
  lemma TokenShape(w: string)
    requires NoSpace(w)
    ensures TokenLike(Token(w))
    ensures AllIn(w, Punctuation) <==> Token(w) == []
  {
    var r := Strip(w, Punctuation);
    StripShape(w, Punctuation);
    assert NoSpace(r) by {
      var i, j :| 0 <= i <= j <= |w| && r == w[i..j];
      assert forall k :: 0 <= k < |r| ==> r[k] == w[i + k];
    }
    LowerOfStripped(r);
  }

  lemma TokensAreTokensOfWords(text: string, t: string)
    requires t in Tokenize(text)
    ensures exists w :: w in Split(text) && NoSpace(w) && t == Token(w)
  {
    SplitWords(text);
  }

  /** Every element of `_tokenize(text)` is token-like. */
  lemma TokenizeShape(text: string)
    ensures forall t :: t in Tokenize(text) ==> TokenLike(t)
  {
    forall t | t in Tokenize(text) ensures TokenLike(t) {
      TokensAreTokensOfWords(text, t);
      var w :| w in Split(text) && NoSpace(w) && t == Token(w);
      TokenShape(w);
    }
  }

  /** A word made only of punctuation (say "--" is not one, "?!" is) yields the
      empty token, which is then part of the token set. */
  lemma PunctuationWordGivesEmptyToken(text: string, w: string)
    requires w in Split(text) && AllIn(w, Punctuation)
    ensures "" in Tokenize(text)
  {
    SplitWords(text);
    TokenShape(w);
    TokenizeFilterIsVacuous(text);
  }

  lemma LowerKeepsPunctuation(c: char)
    ensures LowerChar(c) in Punctuation <==> c in Punctuation
  {
  }

  lemma PunctuationCaseBlind()
    ensures CaseBlind(Punctuation)
  {
    forall c: char ensures LowerChar(c) in Punctuation <==> c in Punctuation {
      LowerKeepsPunctuation(c);
    }
  }

  /** Stripping punctuation and lowering commute. */
  lemma StripLower(s: string)
    ensures Strip(Lower(s), Punctuation) == Lower(Strip(s, Punctuation))
  {
    PunctuationCaseBlind();
    StripLowerCommute(s, Punctuation);
  }

  lemma TokenLower(w: string)
    ensures Token(Lower(w)) == Token(w)
  {
    StripLower(w);
    LowerIdempotent(Strip(w, Punctuation));
  }

  lemma ImagesAgree(f: string -> string, ws: seq<string>, lws: seq<string>)
    requires |ws| == |lws|
    requires forall i :: 0 <= i < |ws| ==> f(lws[i]) == f(ws[i])
    ensures (set w | w in lws :: f(w)) == (set w | w in ws :: f(w))
  {
    var a, b := set w | w in lws :: f(w), set w | w in ws :: f(w);
    forall t | t in a ensures t in b {
      var w :| w in lws && t == f(w);
      var i :| 0 <= i < |lws| && lws[i] == w;
      assert ws[i] in ws;
    }
    forall t | t in b ensures t in a {
      var w :| w in ws && t == f(w);
      var i :| 0 <= i < |ws| && ws[i] == w;
      assert lws[i] in lws;
    }
  }

  /** Tokenizing is insensitive to (ASCII) case: lower-casing the text first
      changes no token. */
  lemma TokenizeLower(text: string)
    ensures Tokenize(Lower(text)) == Tokenize(text)
  {
    TokenizeFilterIsVacuous(text);
    TokenizeFilterIsVacuous(Lower(text));
    SplitLower(text);
    var ws, lws := Split(text), Split(Lower(text));
    forall i | 0 <= i < |ws| ensures Token(lws[i]) == Token(ws[i]) {
      TokenLower(ws[i]);
    }
    ImagesAgree(Token, ws, lws);
  }

  // ---------------------------------------------------------------------------
  // Scoring

  /** `_tokenize` calls `.split()` on the "text", which raises
      `AttributeError` unless it is a string; retrieval admits only policies
      whose "text" is absent or a string. The "title" is never read there. */
  predicate WellFormed(p: Policy) {
    "text" in p ==> p["text"].JStr?
  }

  predicate AllWellFormed(ps: seq<Policy>) {
    forall i :: 0 <= i < |ps| ==> WellFormed(ps[i])
  }

  /** `p.get("text", "")`. */
  function PolicyText(p: Policy): string
    requires WellFormed(p)
  {
    if "text" in p then p["text"].s else ""
  }

  /** `len(q_tokens & _tokenize(text))`. */
  function Overlap(qTokens: set<string>, p: Policy): nat
    requires WellFormed(p)
  {
    |qTokens * Tokenize(PolicyText(p))|
  }

  lemma {:induction false} SubsetCard(a: set<string>, b: set<string>)
    requires a <= b
    ensures |a| <= |b|
    decreases |b|
  {
    if a != {} {
      var x :| x in a;
      SubsetCard(a - {x}, b - {x});
    }
  }

  /** A score never exceeds the number of distinct query tokens, and a policy
      without "text" scores 0. */
  lemma OverlapBounds(qTokens: set<string>, p: Policy)
    requires WellFormed(p)
    ensures Overlap(qTokens, p) <= |qTokens|
    ensures "text" !in p ==> Overlap(qTokens, p) == 0
  {
    SubsetCard(qTokens * Tokenize(PolicyText(p)), qTokens);
    if "text" !in p {
      assert Tokenize("") == {};
    }
  }

  /** An entry of the `scored` list. */
  datatype Scored = Scored(overlap: nat, policy: Policy)

  /** The `scored` list before sorting. */
  function ScoreAll(qTokens: set<string>, ps: seq<Policy>): (s: seq<Scored>)
    requires AllWellFormed(ps)
  {
    seq(|ps|, i requires 0 <= i < |ps| => Scored(Overlap(qTokens, ps[i]), ps[i]))
  }

  /** Every entry carries its own policy's score. */
  predicate Consistent(qTokens: set<string>, s: seq<Scored>) {
    forall i :: 0 <= i < |s| ==> WellFormed(s[i].policy) && s[i].overlap == Overlap(qTokens, s[i].policy)
  }

  function Policies(s: seq<Scored>): (ps: seq<Policy>)
    ensures |ps| == |s|
    ensures forall i :: 0 <= i < |s| ==> ps[i] == s[i].policy
  {
    seq(|s|, i requires 0 <= i < |s| => s[i].policy)
  }

  /** The policies of a concatenation are the policies of its pieces, in order. */
  lemma PoliciesAppend(a: seq<Scored>, b: seq<Scored>)
    ensures Policies(a + b) == Policies(a) + Policies(b)
  {
  }

  // ---------------------------------------------------------------------------
  // scored.sort(key=lambda x: x[0], reverse=True)

  predicate SortedDesc(s: seq<Scored>) {
    forall i, j :: 0 <= i < j < |s| ==> s[i].overlap >= s[j].overlap
  }

  /** The entries of `s` whose score is `v`, in order. */
  function WithScore(v: nat, s: seq<Scored>): seq<Scored> {
    if s == [] then []
    else (if s[0].overlap == v then [s[0]] else []) + WithScore(v, s[1..])
  }

  /** Insert `x` in front of the first entry that does not score more. */
  function Insert(x: Scored, s: seq<Scored>): seq<Scored> {
    if s == [] || x.overlap >= s[0].overlap then [x] + s
    else [s[0]] + Insert(x, s[1..])
  }

  /** Python's stable descending sort on the score, as an insertion sort. */
  function SortDesc(s: seq<Scored>): seq<Scored> {
    if s == [] then [] else Insert(s[0], SortDesc(s[1..]))
  }

  lemma PoliciesCons(a: Scored, t: seq<Scored>)
    ensures Policies([a] + t) == [a.policy] + Policies(t)
  {
  }

  /** Inserting adds exactly the one entry. */
  lemma {:induction false} InsertPermutes(x: Scored, s: seq<Scored>)
    ensures multiset(Insert(x, s)) == multiset{x} + multiset(s)
  {
    if s != [] && x.overlap < s[0].overlap {
      InsertPermutes(x, s[1..]);
      assert s == [s[0]] + s[1..];
    }
  }

  /** ... and exactly the one policy. */
  lemma {:induction false} InsertPermutesPolicies(x: Scored, s: seq<Scored>)
    ensures multiset(Policies(Insert(x, s))) == multiset{x.policy} + multiset(Policies(s))
  {
    if s == [] || x.overlap >= s[0].overlap {
      PoliciesCons(x, s);
    } else {
      InsertPermutesPolicies(x, s[1..]);
      PoliciesCons(s[0], Insert(x, s[1..]));
      PoliciesCons(s[0], s[1..]);
      assert s == [s[0]] + s[1..];
    }
  }

  lemma {:induction false} InsertSorted(x: Scored, s: seq<Scored>)
    requires SortedDesc(s)
    ensures SortedDesc(Insert(x, s))
  {
    if s != [] && x.overlap < s[0].overlap {
      InsertSorted(x, s[1..]);
      InsertPermutes(x, s[1..]);
      var t := Insert(x, s[1..]);
      forall j | 0 <= j < |t| ensures s[0].overlap >= t[j].overlap {
        assert t[j] in multiset(t);
        if t[j] != x {
          assert t[j] in multiset(s[1..]);
          var k :| 0 <= k < |s[1..]| && s[1..][k] == t[j];
          assert s[k + 1] == t[j];
        }
      }
      assert Insert(x, s) == [s[0]] + t;
    }
  }

  lemma {:induction false} InsertWithScore(x: Scored, s: seq<Scored>, v: nat)
    requires SortedDesc(s)
    ensures WithScore(v, Insert(x, s)) == WithScore(v, [x]) + WithScore(v, s)
  {
    if s == [] || x.overlap >= s[0].overlap {
      assert ([x] + s)[1..] == s;
    } else {
      InsertWithScore(x, s[1..], v);
      assert ([s[0]] + Insert(x, s[1..]))[1..] == Insert(x, s[1..]);
      assert [x][1..] == [];
    }
  }

  /** The sort gives a descending permutation of its input. */
  lemma {:induction false} SortDescSorted(s: seq<Scored>)
    ensures SortedDesc(SortDesc(s))
  {
    if s != [] {
      SortDescSorted(s[1..]);
      InsertSorted(s[0], SortDesc(s[1..]));
    }
  }

  lemma {:induction false} SortDescPermutes(s: seq<Scored>)
    ensures multiset(SortDesc(s)) == multiset(s)
  {
    if s != [] {
      SortDescPermutes(s[1..]);
      InsertPermutes(s[0], SortDesc(s[1..]));
      assert s == [s[0]] + s[1..];
    }
  }

  lemma {:induction false} SortDescPermutesPolicies(s: seq<Scored>)
    ensures multiset(Policies(SortDesc(s))) == multiset(Policies(s))
  {
    if s != [] {
      SortDescPermutesPolicies(s[1..]);
      InsertPermutesPolicies(s[0], SortDesc(s[1..]));
      assert Policies(s) == [s[0].policy] + Policies(s[1..]);
    }
  }

  lemma SortDescProperties(s: seq<Scored>)
    ensures SortedDesc(SortDesc(s))
    ensures multiset(SortDesc(s)) == multiset(s)
    ensures multiset(Policies(SortDesc(s))) == multiset(Policies(s))
    ensures |SortDesc(s)| == |s|
  {
    SortDescSorted(s);
    SortDescPermutes(s);
    SortDescPermutesPolicies(s);
    assert |multiset(SortDesc(s))| == |multiset(s)|;
  }

  /** Stability: the entries of any one score keep their input order. */
  lemma {:induction false} SortDescStable(s: seq<Scored>, v: nat)
    ensures WithScore(v, SortDesc(s)) == WithScore(v, s)
  {
    if s != [] {
      var t := SortDesc(s[1..]);
      SortDescStable(s[1..], v);
      SortDescSorted(s[1..]);
      InsertWithScore(s[0], t, v);
      WithScoreCons(v, s);
    }
  }

  lemma WithScoreCons(v: nat, s: seq<Scored>)
    requires s != []
    ensures WithScore(v, s) == WithScore(v, [s[0]]) + WithScore(v, s[1..])
  {
    assert [s[0]][1..] == [];
  }

  lemma {:induction false} WithScoreNonEmpty(v: nat, s: seq<Scored>)
    requires WithScore(v, s) != []
    ensures exists i :: 0 <= i < |s| && s[i].overlap == v
  {
    if s[0].overlap != v {
      WithScoreNonEmpty(v, s[1..]);
      var i :| 0 <= i < |s[1..]| && s[1..][i].overlap == v;
      assert s[i + 1].overlap == v;
    }
  }

  lemma WithScoreOfHead(s: seq<Scored>)
    requires s != []
    ensures WithScore(s[0].overlap, s) != []
  {
  }

  /** Two descending lists with the same entries per score start with the
      same score. */
  lemma SameTopScore(a: seq<Scored>, b: seq<Scored>)
    requires SortedDesc(a) && SortedDesc(b) && a != []
    requires forall v: nat :: WithScore(v, a) == WithScore(v, b)
    ensures b != [] && a[0].overlap == b[0].overlap
  {
    var m := a[0].overlap;
    WithScoreOfHead(a);
    assert WithScore(m, b) == WithScore(m, a);
    WithScoreNonEmpty(m, b);
    var i :| 0 <= i < |b| && b[i].overlap == m;
    var m' := b[0].overlap;
    WithScoreOfHead(b);
    assert WithScore(m', a) == WithScore(m', b);
    WithScoreNonEmpty(m', a);
    var j :| 0 <= j < |a| && a[j].overlap == m';
    assert b[0].overlap >= b[i].overlap;
    assert a[0].overlap >= a[j].overlap;
  }

  lemma WithScoreTails(a: seq<Scored>, b: seq<Scored>)
    requires a != [] && b != [] && a[0].overlap == b[0].overlap
    requires forall v: nat :: WithScore(v, a) == WithScore(v, b)
    ensures a[0] == b[0]
    ensures forall v: nat :: WithScore(v, a[1..]) == WithScore(v, b[1..])
  {
    var m := a[0].overlap;
    assert WithScore(m, a) == [a[0]] + WithScore(m, a[1..]);
    assert WithScore(m, b) == [b[0]] + WithScore(m, b[1..]);
    assert WithScore(m, a)[0] == a[0] && WithScore(m, b)[0] == b[0];
    forall v: nat ensures WithScore(v, a[1..]) == WithScore(v, b[1..]) {
      assert WithScore(v, a) == WithScore(v, b);
      if v == m {
        assert WithScore(v, a)[1..] == WithScore(v, a[1..]);
        assert WithScore(v, b)[1..] == WithScore(v, b[1..]);
      } else {
        assert WithScore(v, a) == WithScore(v, a[1..]);
        assert WithScore(v, b) == WithScore(v, b[1..]);
      }
    }
  }

  /** A descending order that keeps every score's entries in input order is
      unique: any stable descending sort of the same list, however it is
      computed, gives `SortDesc`'s result. */
  lemma {:induction false} StableSortUnique(a: seq<Scored>, b: seq<Scored>)
    requires SortedDesc(a) && SortedDesc(b)
    requires forall v: nat :: WithScore(v, a) == WithScore(v, b)
    ensures a == b
    decreases |a|
  {
    if a == [] {
      if b != [] {
        WithScoreOfHead(b);
      }
    } else {
      SameTopScore(a, b);
      WithScoreTails(a, b);
      StableSortUnique(a[1..], b[1..]);
      assert a == [a[0]] + a[1..] && b == [b[0]] + b[1..];
    }
  }

  /** Hence the sort is characterised by its three properties. */
  lemma SortDescIsTheStableSort(s: seq<Scored>, t: seq<Scored>)
    requires SortedDesc(t) && forall v: nat :: WithScore(v, t) == WithScore(v, s)
    ensures t == SortDesc(s)
  {
    SortDescSorted(s);
    forall v: nat ensures WithScore(v, SortDesc(s)) == WithScore(v, t) {
      SortDescStable(s, v);
    }
    StableSortUnique(SortDesc(s), t);
  }

  // ---------------------------------------------------------------------------
  // retrieve_relevant_policies

  function Min(a: nat, b: nat): nat {
    if a <= b then a else b
  }

  /** The scored list after sorting. */
  function Ranked(queryText: string, ps: seq<Policy>): (r: seq<Scored>)
    requires AllWellFormed(ps)
    ensures |r| == |ps|
  {
    SortDescProperties(ScoreAll(Tokenize(queryText), ps));
    SortDesc(ScoreAll(Tokenize(queryText), ps))
  }

  /** What `retrieve_relevant_policies(query_text, policies, k)` returns: the
      policies of the first `k` ranked entries. */
  function Retrieve(queryText: string, ps: seq<Policy>, k: nat): (top: seq<Policy>)
    requires AllWellFormed(ps)
    ensures AllWellFormed(top)
  {
    var r := Ranked(queryText, ps);
    RankedProperties(queryText, ps);
    Policies(r[..Min(k, |r|)])
  }

  /** The `for p in policies` loop, the in-place sort and the slice. */
  method RetrieveRelevantPolicies(queryText: string, policies: seq<Policy>, k: nat)
    returns (top: seq<Policy>)
    requires AllWellFormed(policies)
    ensures top == Retrieve(queryText, policies, k)
    ensures |top| == Min(k, |policies|)
  {
    var qTokens := Tokenize(queryText);
    var scored: seq<Scored> := [];
    for i := 0 to |policies|
      invariant |scored| == i
      invariant forall j :: 0 <= j < i ==> scored[j] == Scored(Overlap(qTokens, policies[j]), policies[j])
    {
      var p := policies[i];
      var overlap := |qTokens * Tokenize(PolicyText(p))|;
      scored := scored + [Scored(overlap, p)];
    }
    assert scored == ScoreAll(qTokens, policies);
    SortDescProperties(scored);
    scored := SortDesc(scored);
    top := Policies(scored[..Min(k, |scored|)]);
  }

  lemma {:induction false} ConsistentPerm(qTokens: set<string>, s: seq<Scored>, t: seq<Scored>)
    requires Consistent(qTokens, s) && multiset(s) == multiset(t)
    ensures Consistent(qTokens, t)
  {
    forall i | 0 <= i < |t|
      ensures WellFormed(t[i].policy) && t[i].overlap == Overlap(qTokens, t[i].policy)
    {
      assert t[i] in multiset(s);
      var j :| 0 <= j < |s| && s[j] == t[i];
    }
  }

  lemma RankedOrder(queryText: string, ps: seq<Policy>)
    requires AllWellFormed(ps)
    ensures Consistent(Tokenize(queryText), Ranked(queryText, ps))
    ensures SortedDesc(Ranked(queryText, ps))
  {
    var s := ScoreAll(Tokenize(queryText), ps);
    SortDescProperties(s);
    ConsistentPerm(Tokenize(queryText), s, SortDesc(s));
  }

  /** The ranked list is a stable descending sort of the scored policies and
      holds every input policy once per occurrence. */
  lemma RankedProperties(queryText: string, ps: seq<Policy>)
    requires AllWellFormed(ps)
    ensures Consistent(Tokenize(queryText), Ranked(queryText, ps))
    ensures SortedDesc(Ranked(queryText, ps))
    ensures multiset(Policies(Ranked(queryText, ps))) == multiset(ps)
    ensures forall v: nat :: WithScore(v, Ranked(queryText, ps)) == WithScore(v, ScoreAll(Tokenize(queryText), ps))
  {
    var q := Tokenize(queryText);
    var s := ScoreAll(q, ps);
    RankedOrder(queryText, ps);
    RankedPermutes(queryText, ps);
    forall v: nat ensures WithScore(v, SortDesc(s)) == WithScore(v, s) {
      SortDescStable(s, v);
    }
  }

  lemma RankedPermutes(queryText: string, ps: seq<Policy>)
    requires AllWellFormed(ps)
    ensures multiset(Policies(Ranked(queryText, ps))) == multiset(ps)
  {
    var s := ScoreAll(Tokenize(queryText), ps);
    SortDescPermutesPolicies(s);
    assert Policies(s) == ps;
  }

  /** A prefix of a consistent descending list keeps the list's policies
      in non-increasing order of score. */
  lemma PrefixOrdered(q: set<string>, r: seq<Scored>, m: nat)
    requires Consistent(q, r) && SortedDesc(r) && m <= |r|
    ensures |Policies(r[..m])| == m
    ensures multiset(Policies(r[..m])) <= multiset(Policies(r))
    ensures AllWellFormed(Policies(r[..m]))
    ensures forall i, j :: 0 <= i < j < m ==>
              Overlap(q, Policies(r[..m])[i]) >= Overlap(q, Policies(r[..m])[j])
  {
    var top := Policies(r[..m]);
    assert multiset(top) <= multiset(Policies(r)) by {
      assert Policies(r) == top + Policies(r[m..]);
    }
    forall i | 0 <= i < m ensures WellFormed(top[i]) && Overlap(q, top[i]) == r[i].overlap {
      assert top[i] == r[i].policy;
    }
  }

  /** The result holds `min(k, len(policies))` policies, each taken from the
      input (no policy more often than the input holds it), in non-increasing
      order of score. */
  lemma RetrieveBoundedOrdered(queryText: string, ps: seq<Policy>, k: nat)
    requires AllWellFormed(ps)
    ensures |Retrieve(queryText, ps, k)| == Min(k, |ps|)
    ensures multiset(Retrieve(queryText, ps, k)) <= multiset(ps)
    ensures AllWellFormed(Retrieve(queryText, ps, k))
    ensures forall i, j :: 0 <= i < j < |Retrieve(queryText, ps, k)| ==>
              Overlap(Tokenize(queryText), Retrieve(queryText, ps, k)[i]) >=
              Overlap(Tokenize(queryText), Retrieve(queryText, ps, k)[j])
  {
    var q := Tokenize(queryText);
    var r := Ranked(queryText, ps);
    var m := Min(k, |r|);
    RankedOrder(queryText, ps);
    RankedPermutes(queryText, ps);
    PrefixOrdered(q, r, m);
    assert Retrieve(queryText, ps, k) == Policies(r[..m]);
  }

  /** Nothing left out scores more than anything returned: every policy of the
      input that did not make it into the result (counted with multiplicity)
      scores at most what every returned policy scores. */
  lemma RetrieveBeatsLeftOut(queryText: string, ps: seq<Policy>, k: nat)
    requires AllWellFormed(ps)
    ensures forall p :: p in multiset(ps) - multiset(Retrieve(queryText, ps, k)) ==> WellFormed(p)
    ensures forall i, p ::
              (0 <= i < |Retrieve(queryText, ps, k)| && p in multiset(ps) - multiset(Retrieve(queryText, ps, k))) ==>
              Overlap(Tokenize(queryText), Retrieve(queryText, ps, k)[i]) >= Overlap(Tokenize(queryText), p)
  {
    RankedSplit(queryText, ps, k);
    forall p | p in multiset(ps) - multiset(Retrieve(queryText, ps, k))
      ensures WellFormed(p) &&
              forall i :: 0 <= i < |Retrieve(queryText, ps, k)| ==>
                Overlap(Tokenize(queryText), Retrieve(queryText, ps, k)[i]) >= Overlap(Tokenize(queryText), p)
    {
      LeftOutScore(queryText, ps, k, p);
    }
  }

  lemma RankedSplit(queryText: string, ps: seq<Policy>, k: nat)
    requires AllWellFormed(ps)
    ensures multiset(ps) - multiset(Retrieve(queryText, ps, k)) ==
            multiset(Policies(Ranked(queryText, ps)[Min(k, |ps|)..]))
    ensures Retrieve(queryText, ps, k) == Policies(Ranked(queryText, ps)[..Min(k, |ps|)])
  {
    var r := Ranked(queryText, ps);
    var m := Min(k, |ps|);
    RankedProperties(queryText, ps);
    assert Policies(r) == Policies(r[..m]) + Policies(r[m..]);
  }

  lemma SortedPrefixBeatsRest(q: set<string>, r: seq<Scored>, m: nat, p: Policy)
    requires Consistent(q, r) && SortedDesc(r) && m <= |r|
    requires p in multiset(Policies(r[m..]))
    ensures WellFormed(p)
    ensures AllWellFormed(Policies(r[..m]))
    ensures forall i :: 0 <= i < m ==> Overlap(q, Policies(r[..m])[i]) >= Overlap(q, p)
  {
    var j :| 0 <= j < |r[m..]| && Policies(r[m..])[j] == p;
    assert r[m + j].policy == p;
    forall i | 0 <= i < m ensures WellFormed(Policies(r[..m])[i]) && Policies(r[..m])[i] == r[i].policy {
      assert r[..m][i] == r[i];
    }
  }

  lemma LeftOutScore(queryText: string, ps: seq<Policy>, k: nat, p: Policy)
    requires AllWellFormed(ps)
    requires p in multiset(Policies(Ranked(queryText, ps)[Min(k, |ps|)..]))
    ensures WellFormed(p)
    ensures forall i :: 0 <= i < |Retrieve(queryText, ps, k)| ==>
              Overlap(Tokenize(queryText), Retrieve(queryText, ps, k)[i]) >= Overlap(Tokenize(queryText), p)
  {
    var q := Tokenize(queryText);
    var r := Ranked(queryText, ps);
    var m := Min(k, |ps|);
    RankedOrder(queryText, ps);
    RankedSplit(queryText, ps, k);
    SortedPrefixBeatsRest(q, r, m, p);
    var top := Retrieve(queryText, ps, k);
    assert top == Policies(r[..m]) && |top| == m;
  }

  /** The policies of `ps` whose score is `v`, in input order. */
  function OfScore(qTokens: set<string>, v: nat, ps: seq<Policy>): seq<Policy>
    requires AllWellFormed(ps)
  {
    if ps == [] then []
    else (if Overlap(qTokens, ps[0]) == v then [ps[0]] else []) + OfScore(qTokens, v, ps[1..])
  }

  lemma {:induction false} OfScorePolicies(qTokens: set<string>, v: nat, s: seq<Scored>)
    requires Consistent(qTokens, s)
    ensures AllWellFormed(Policies(s))
    ensures OfScore(qTokens, v, Policies(s)) == Policies(WithScore(v, s))
  {
    if s != [] {
      OfScorePolicies(qTokens, v, s[1..]);
      var ps := Policies(s);
      assert ps[1..] == Policies(s[1..]);
      assert ps[0] == s[0].policy;
      if s[0].overlap == v {
        PoliciesCons(s[0], WithScore(v, s[1..]));
      }
    }
  }

  lemma {:induction false} WithScorePrefix(v: nat, s: seq<Scored>, m: nat)
    requires m <= |s|
    ensures WithScore(v, s) == WithScore(v, s[..m]) + WithScore(v, s[m..])
  {
    if m > 0 {
      WithScorePrefix(v, s[1..], m - 1);
      assert s[1..][..m - 1] == s[..m][1..];
      assert s[1..][m - 1..] == s[m..];
    }
  }

  /** Ties keep their input order: among the returned policies, those of any
      one score appear in the order the input lists them, and are the first
      ones of that score in the input. */
  lemma RetrieveStable(queryText: string, ps: seq<Policy>, k: nat, v: nat)
    requires AllWellFormed(ps)
    ensures AllWellFormed(Retrieve(queryText, ps, k))
    ensures OfScore(Tokenize(queryText), v, Retrieve(queryText, ps, k)) <= OfScore(Tokenize(queryText), v, ps)
  {
    var q := Tokenize(queryText);
    var s := ScoreAll(q, ps);
    var r := Ranked(queryText, ps);
    RankedProperties(queryText, ps);
    var m := Min(k, |r|);
    assert Consistent(q, r[..m]);
    assert Consistent(q, s);
    OfScorePolicies(q, v, r[..m]);
    OfScorePolicies(q, v, s);
    assert Policies(s) == ps;
    WithScorePrefix(v, r, m);
  }

  /** A word of lower-case letters and other characters outside the
      punctuation set. */
  predicate PlainWord(w: string) {
    w != [] && NoSpace(w) && forall i :: 0 <= i < |w| ==> w[i] !in Punctuation && !('A' <= w[i] <= 'Z')
  }

  lemma PlainToken(w: string)
    requires PlainWord(w)
    ensures Token(w) == w
  {
    assert Lead(w, Punctuation) == 0;
    assert Trail(w, Punctuation) == 0;
    assert Strip(w, Punctuation) == w[0..][..|w|];
    assert Lower(w) == w;
  }

  /** The tokens of plain words joined by spaces are those words. */
  lemma TokenizeJoined(ws: seq<string>)
    requires forall i :: 0 <= i < |ws| ==> PlainWord(ws[i])
    ensures Tokenize(Join(ws, " ")) == set w | w in ws
  {
    SplitJoinRoundTrip(ws);
    TokenizeFilterIsVacuous(Join(ws, " "));
    forall w | w in ws ensures Token(w) == w {
      PlainToken(w);
    }
  }

  /** Of two policies, the first is the top one whenever it scores at
      least as much as the second: ties keep the input order. */
  lemma RetrieveOfTwo(queryText: string, a: Policy, b: Policy)
    requires WellFormed(a) && WellFormed(b)
    requires Overlap(Tokenize(queryText), a) >= Overlap(Tokenize(queryText), b)
    ensures AllWellFormed([a, b]) && Retrieve(queryText, [a, b], 1) == [a]
  {
    var q := Tokenize(queryText);
    var s := ScoreAll(q, [a, b]);
    assert s == [Scored(Overlap(q, a), a), Scored(Overlap(q, b), b)];
    assert s[1..] == [s[1]] && s[1..][1..] == [];
    assert SortDesc(s[1..]) == [s[1]];
    assert SortDesc(s) == s;
    assert s[..1] == [s[0]];
  }

  const ExampleQuery := Join(["my", "house", "had", "flood", "damage"], " ")
  const ExamplePolicyA := map["title" := JStr("A"), "text" := JStr(Join(["flood", "damage", "covered"], " "))]
  const ExamplePolicyB := map["title" := JStr("B"), "text" := JStr(Join(["fire", "damage", "excluded"], " "))]

  lemma {:induction false} AllPlain(ws: seq<string>)
    requires forall w :: w in ws ==> PlainWord(w)
    ensures forall i :: 0 <= i < |ws| ==> PlainWord(ws[i])
  {
  }

  /** A non-empty word of lower-case ASCII letters is plain. */
  lemma LettersArePlain(w: string)
    requires w != [] && forall i :: 0 <= i < |w| ==> 'a' <= w[i] <= 'z'
    ensures PlainWord(w)
  {
  }

  lemma ExampleWordsPlain()
    ensures PlainWord("my") && PlainWord("house") && PlainWord("had") && PlainWord("flood") && PlainWord("damage")
    ensures PlainWord("covered") && PlainWord("fire") && PlainWord("excluded")
  {
    LettersArePlain("my");
    LettersArePlain("house");
    LettersArePlain("had");
    LettersArePlain("flood");
    LettersArePlain("damage");
    LettersArePlain("covered");
    LettersArePlain("fire");
    LettersArePlain("excluded");
  }

  lemma ExampleQueryTokens()
    ensures Tokenize(ExampleQuery) == {"my", "house", "had", "flood", "damage"}
  {
    var ws := ["my", "house", "had", "flood", "damage"];
    assert forall i :: 0 <= i < |ws| ==> PlainWord(ws[i]) by {
      ExampleWordsPlain();
      AllPlain(ws);
    }
    TokenizeJoined(ws);
    ElementsOfFive("my", "house", "had", "flood", "damage");
  }

  lemma ElementsOfFive(a: string, b: string, c: string, d: string, e: string)
    ensures (set w | w in [a, b, c, d, e]) == {a, b, c, d, e}
  {
  }

  lemma ElementsOfThree(a: string, b: string, c: string)
    ensures (set w | w in [a, b, c]) == {a, b, c}
  {
  }

  /** A policy whose text is plain words joined by spaces has those words
      as its tokens. */
  lemma PolicyOfWords(title: string, ws: seq<string>)
    requires forall i :: 0 <= i < |ws| ==> PlainWord(ws[i])
    ensures WellFormed(map["title" := JStr(title), "text" := JStr(Join(ws, " "))])
    ensures Tokenize(PolicyText(map["title" := JStr(title), "text" := JStr(Join(ws, " "))])) == set w | w in ws
  {
    TokenizeJoined(ws);
  }

  lemma ExampleTextTokensA()
    ensures WellFormed(ExamplePolicyA)
    ensures Tokenize(PolicyText(ExamplePolicyA)) == {"flood", "damage", "covered"}
  {
    var ws := ["flood", "damage", "covered"];
    assert forall i :: 0 <= i < |ws| ==> PlainWord(ws[i]) by {
      ExampleWordsPlain();
      AllPlain(ws);
    }
    PolicyOfWords("A", ws);
    ElementsOfThree("flood", "damage", "covered");
  }

  lemma ExampleTextTokensB()
    ensures WellFormed(ExamplePolicyB)
    ensures Tokenize(PolicyText(ExamplePolicyB)) == {"fire", "damage", "excluded"}
  {
    var ws := ["fire", "damage", "excluded"];
    assert forall i :: 0 <= i < |ws| ==> PlainWord(ws[i]) by {
      ExampleWordsPlain();
      AllPlain(ws);
    }
    PolicyOfWords("B", ws);
    ElementsOfThree("fire", "damage", "excluded");
  }

  lemma ExampleIntersections()
    ensures |{"my", "house", "had", "flood", "damage"} * {"flood", "damage", "covered"}| == 2
    ensures |{"my", "house", "had", "flood", "damage"} * {"fire", "damage", "excluded"}| == 1
  {
    var q: set<string> := {"my", "house", "had", "flood", "damage"};
    var a: set<string> := {"flood", "damage", "covered"};
    var b: set<string> := {"fire", "damage", "excluded"};
    assert "house" != "flood" by {
      assert "house"[0] != "flood"[0];
    }
    assert "covered" !in q && "my" !in a && "house" !in a && "had" !in a;
    assert q * a == {"flood", "damage"};
    assert q * b == {"damage"};
  }

  lemma ExampleOverlaps()
    ensures WellFormed(ExamplePolicyA) && WellFormed(ExamplePolicyB)
    ensures Overlap(Tokenize(ExampleQuery), ExamplePolicyA) == 2
    ensures Overlap(Tokenize(ExampleQuery), ExamplePolicyB) == 1
  {
    ExampleQueryTokens();
    ExampleTextTokensA();
    ExampleTextTokensB();
    ExampleIntersections();
  }

  /** The worked scenario of the retriever: for the query "my house had
      flood damage", policy A ("flood damage covered") shares two tokens and
      policy B ("fire damage excluded") one, so with `k = 1` the result is A. */
  lemma RetrieveExample()
    ensures AllWellFormed([ExamplePolicyA, ExamplePolicyB])
    ensures Retrieve(ExampleQuery, [ExamplePolicyA, ExamplePolicyB], 1) == [ExamplePolicyA]
  {
    ExampleOverlaps();
    RetrieveOfTwo(ExampleQuery, ExamplePolicyA, ExamplePolicyB);
  }

  // ---------------------------------------------------------------------------
  // format_policy_context

  /** One entry of the context: `f"{title}:\n{text}"` with
      `title = p.get("title", "Policy")` and `text = p.get("text", "")`; the
      f-string renders a non-string value with `str`. */
  function Entry(p: Policy, repr: Json -> string): string {
    PyStr(GetOr(p, "title", JStr("Policy")), repr) + ":\n" + PyStr(GetOr(p, "text", JStr("")), repr)
  }

  function Entries(ps: seq<Policy>, repr: Json -> string): (es: seq<string>)
    ensures |es| == |ps|
    ensures forall i :: 0 <= i < |ps| ==> es[i] == Entry(ps[i], repr)
  {
    seq(|ps|, i requires 0 <= i < |ps| => Entry(ps[i], repr))
  }

  /** The entries of a concatenation are the entries of its pieces, in order. */
  lemma EntriesAppend(a: seq<Policy>, b: seq<Policy>, repr: Json -> string)
    ensures Entries(a + b, repr) == Entries(a, repr) + Entries(b, repr)
  {
  }

  /** `format_policy_context(policies)`: the loop collecting `parts`, then
      `"\n\n".join(parts)`. */
  method FormatPolicyContext(policies: seq<Policy>, repr: Json -> string) returns (context: string)
    ensures context == Join(Entries(policies, repr), "\n\n")
    ensures policies == [] ==> context == ""
  {
    var parts: seq<string> := [];
    for i := 0 to |policies|
      invariant parts == Entries(policies[..i], repr)
    {
      var p := policies[i];
      var title := GetOr(p, "title", JStr("Policy"));
      var text := GetOr(p, "text", JStr(""));
      parts := parts + [PyStr(title, repr) + ":\n" + PyStr(text, repr)];
    }
    assert policies[..|policies|] == policies;
    context := Join(parts, "\n\n");
  }

  /** The context lays the entries out in order: entry `i` starts at its
      offset and is followed by the "\n\n" separator unless it is the last. */
  lemma FormatPolicyContextLayout(ps: seq<Policy>, repr: Json -> string, i: nat)
    requires i < |ps|
    ensures var c, o, e := Join(Entries(ps, repr), "\n\n"), Offset(Entries(ps, repr), "\n\n", i), Entry(ps[i], repr);
            o + |e| <= |c| && c[o .. o + |e|] == e &&
            (i + 1 < |ps| ==> o + |e| + 2 <= |c| && c[o + |e| .. o + |e| + 2] == "\n\n")
  {
    var es, sep := Entries(ps, repr), "\n\n";
    JoinPartAt(es, sep, i);
    if i + 1 < |ps| {
      JoinSepAt(es, sep, i);
    }
  }

  /** An entry is the title (or "Policy" when absent), ":\n", and the text (or
      nothing when absent); a string is rendered as itself and any other value
      as `str` renders it. */
  lemma EntryParts(p: Policy, repr: Json -> string)
    ensures Entry(p, repr) == (if "title" in p then PyStr(p["title"], repr) else "Policy") + ":\n" +
                              (if "text" in p then PyStr(p["text"], repr) else "")
  {
  }

  /** A policy with a string title and text renders as that title, ":\n" and
      that text, whatever `repr` is. */
  lemma EntryOfStrings(title: string, text: string, repr: Json -> string)
    ensures Entry(map["title" := JStr(title), "text" := JStr(text)], repr) == title + ":\n" + text
  {
  }
}
