/**
 * `extractSentencesWithKeywords`: the text is cut into sentences after `.`,
 * `!` or `?` followed by white space, each sentence trimmed and blanks
 * dropped; the sentences containing some keyword (ignoring case) are
 * collected in order until `maxCount` of them were found.
 */
module SentenceFilter {
  import opened Text

  /** `.replace(/\n/g, ' ')`: every line break becomes a space. */
  function Unwrap(s: string): (r: string)
    ensures |r| == |s| && '\n' !in r
    ensures forall i :: 0 <= i < |s| && s[i] != '\n' ==> r[i] == s[i]
  {
    if s == [] then [] else [if s[0] == '\n' then ' ' else s[0]] + Unwrap(s[1..])
  }

  predicate EndsSentence(c: char) {
    c == '.' || c == '!' || c == '?'
  }

  /** The end of the run of white space that starts at `i`. */
  function RunEnd(s: string, i: nat): (j: nat)
    requires i <= |s|
    ensures i <= j <= |s| && (j == |s| || !IsSpace(s[j]))
    ensures forall k :: i <= k < j ==> IsSpace(s[k])
    decreases |s| - i
  {
    if i < |s| && IsSpace(s[i]) then RunEnd(s, i + 1) else i
  }

  /**
   * `split(/(?<=[.!?])\s+/)`, with the current piece starting at `from` and
   * the scan at `i`: a split consumes the whole run of white space.
   */
  function SplitFrom(s: string, from: nat, i: nat): (r: seq<string>)
    requires from <= i <= |s|
    ensures 1 <= |r| <= |s| - i + 1
    decreases |s| - i
  {
    if i == |s| then [s[from..]]
    else if i > 0 && EndsSentence(s[i - 1]) && IsSpace(s[i]) then
      var j := RunEnd(s, i);
      [s[from..i]] + SplitFrom(s, j, j)
    else SplitFrom(s, from, i + 1)
  }

  /**
   * `split(/(?<=[.!?])\s+/)`: the pieces, put back together with the runs
   * of white space between them, are the text; every run is non-empty and
   * maximal; every piece but the last ends with a sentence mark; and no
   * piece still holds a mark followed by white space.
   */
  function Split(s: string): (r: seq<string>)
    ensures |r| == |Gaps(s)| + 1 && Interleave(r, Gaps(s)) == s
    ensures forall k :: 0 <= k < |Gaps(s)| ==> Gaps(s)[k] != [] && forall c :: c in Gaps(s)[k] ==> IsSpace(c)
    ensures forall k :: 1 <= k < |r| ==> r[k] == [] || !IsSpace(r[k][0])
    ensures forall k :: 0 <= k < |r| ==> NoSplitPoint(r[k])
    ensures PiecesEndSentences(r)
  {
    SplitFromRebuilds(s, 0, 0);
    SplitFromGaps(s, 0, 0);
    SplitFromTakesEverySplit(s, 0, 0);
    SplitFromEndsSentences(s, 0, 0);
    SplitFrom(s, 0, 0)
  }

  /** No white space right after a sentence mark inside `p`. */
  predicate NoSplitPoint(p: string) {
    forall k :: 1 <= k < |p| ==> !(EndsSentence(p[k - 1]) && IsSpace(p[k]))
  }

  /** The runs of white space the split removes, along the same scan as `SplitFrom`. */
  function GapsFrom(s: string, from: nat, i: nat): seq<string>
    requires from <= i <= |s|
    decreases |s| - i
  {
    if i == |s| then []
    else if i > 0 && EndsSentence(s[i - 1]) && IsSpace(s[i]) then
      var j := RunEnd(s, i);
      [s[i..j]] + GapsFrom(s, j, j)
    else GapsFrom(s, from, i + 1)
  }

  function Gaps(s: string): seq<string> {
    GapsFrom(s, 0, 0)
  }

  /** The pieces joined back with the runs between them. */
  function Interleave(ps: seq<string>, gs: seq<string>): string
    requires |ps| == |gs| + 1
    decreases |gs|
  {
    if gs == [] then ps[0] else ps[0] + gs[0] + Interleave(ps[1..], gs[1..])
  }

  /** A split point at `i`: the current piece ends there and the scan resumes after the run. */
  lemma SplitStep(s: string, from: nat, i: nat)
    requires from <= i < |s| && i > 0 && EndsSentence(s[i - 1]) && IsSpace(s[i])
    ensures SplitFrom(s, from, i) == [s[from..i]] + SplitFrom(s, RunEnd(s, i), RunEnd(s, i))
    ensures GapsFrom(s, from, i) == [s[i..RunEnd(s, i)]] + GapsFrom(s, RunEnd(s, i), RunEnd(s, i))
  {
  }

  /** No split point at `i`: the scan moves on within the same piece. */
  lemma ScanStep(s: string, from: nat, i: nat)
    requires from <= i < |s| && !(i > 0 && EndsSentence(s[i - 1]) && IsSpace(s[i]))
    ensures SplitFrom(s, from, i) == SplitFrom(s, from, i + 1)
    ensures GapsFrom(s, from, i) == GapsFrom(s, from, i + 1)
  {
  }

  /** Joining a first piece and run in front of the rest. */
  lemma InterleaveCons(p: string, g: string, ps: seq<string>, gs: seq<string>)
    requires |ps| == |gs| + 1
    ensures Interleave([p] + ps, [g] + gs) == p + g + Interleave(ps, gs)
    ensures Interleave(ps, gs)[..|ps[0]|] == ps[0]
  {
    assert ([p] + ps)[1..] == ps && ([g] + gs)[1..] == gs;
    if gs != [] {
      assert Interleave(ps, gs) == ps[0] + (gs[0] + Interleave(ps[1..], gs[1..]));
    }
  }

  /** From any scan position, the pieces and the removed runs rebuild the rest of the text. */
  lemma {:induction false} SplitFromRebuilds(s: string, from: nat, i: nat)
    requires from <= i <= |s|
    ensures |SplitFrom(s, from, i)| == |GapsFrom(s, from, i)| + 1
    ensures Interleave(SplitFrom(s, from, i), GapsFrom(s, from, i)) == s[from..]
    decreases |s| - i
  {
    if i == |s| {
    } else if i > 0 && EndsSentence(s[i - 1]) && IsSpace(s[i]) {
      var j := RunEnd(s, i);
      SplitStep(s, from, i);
      SplitFromRebuilds(s, j, j);
      RebuildAtSplit(s, from, i, j, SplitFrom(s, j, j), GapsFrom(s, j, j));
    } else {
      ScanStep(s, from, i);
      SplitFromRebuilds(s, from, i + 1);
    }
  }

  /** A piece, the run after it, and the rest rebuilt, give back the text from the piece on. */
  lemma RebuildAtSplit(s: string, from: nat, i: nat, j: nat, rest: seq<string>, gaps: seq<string>)
    requires from <= i <= j <= |s|
    requires |rest| == |gaps| + 1 && Interleave(rest, gaps) == s[j..]
    ensures Interleave([s[from..i]] + rest, [s[i..j]] + gaps) == s[from..]
  {
    InterleaveCons(s[from..i], s[i..j], rest, gaps);
    assert s[from..] == s[from..i] + s[i..j] + s[j..];
  }

  /** Every removed run is non-empty white space, and the piece after it does not start with white space. */
  lemma {:induction false} SplitFromGaps(s: string, from: nat, i: nat)
    requires from <= i <= |s|
    ensures var ps, gs := SplitFrom(s, from, i), GapsFrom(s, from, i);
      (forall k :: 0 <= k < |gs| ==> gs[k] != [] && forall c :: c in gs[k] ==> IsSpace(c))
      && (forall k :: 1 <= k < |ps| ==> ps[k] == [] || !IsSpace(ps[k][0]))
    decreases |s| - i
  {
    if i == |s| {
    } else if i > 0 && EndsSentence(s[i - 1]) && IsSpace(s[i]) {
      var j := RunEnd(s, i);
      SplitStep(s, from, i);
      SplitFromGaps(s, j, j);
      SplitFromRebuilds(s, j, j);
      var rest, rg := SplitFrom(s, j, j), GapsFrom(s, j, j);
      var ps, gs := [s[from..i]] + rest, [s[i..j]] + rg;
      InterleaveCons(s[from..i], s[i..j], rest, rg);
      assert rest[0] == s[j..][..|rest[0]|];
      forall k | 1 <= k < |ps| ensures ps[k] == [] || !IsSpace(ps[k][0]) {
        assert ps[k] == rest[k - 1];
      }
      forall k | 0 <= k < |gs| ensures gs[k] != [] && forall c :: c in gs[k] ==> IsSpace(c) {
        if k > 0 { assert gs[k] == rg[k - 1]; }
      }
    } else {
      ScanStep(s, from, i);
      SplitFromGaps(s, from, i + 1);
    }
  }

  /** With no split point behind the scan in the current piece, no piece keeps one: every split point is taken. */
  lemma {:induction false} SplitFromTakesEverySplit(s: string, from: nat, i: nat)
    requires from <= i <= |s| && NoSplitPoint(s[from..i])
    ensures forall k :: 0 <= k < |SplitFrom(s, from, i)| ==> NoSplitPoint(SplitFrom(s, from, i)[k])
    decreases |s| - i
  {
    if i == |s| {
      assert SplitFrom(s, from, i) == [s[from..]];
      assert s[from..i] == s[from..];
    } else if i > 0 && EndsSentence(s[i - 1]) && IsSpace(s[i]) {
      var j := RunEnd(s, i);
      SplitStep(s, from, i);
      SplitFromTakesEverySplit(s, j, j);
      var ps := [s[from..i]] + SplitFrom(s, j, j);
      forall k | 1 <= k < |ps| ensures NoSplitPoint(ps[k]) {
        assert ps[k] == SplitFrom(s, j, j)[k - 1];
      }
    } else {
      ScanStep(s, from, i);
      NoSplitPointExtend(s, from, i);
      SplitFromTakesEverySplit(s, from, i + 1);
    }
  }

  /** Extending the current piece by a character that is not a split point keeps it free of split points. */
  lemma NoSplitPointExtend(s: string, from: nat, i: nat)
    requires from <= i < |s| && NoSplitPoint(s[from..i])
    requires !(i > 0 && EndsSentence(s[i - 1]) && IsSpace(s[i]))
    ensures NoSplitPoint(s[from..i + 1])
  {
    var p, q := s[from..i + 1], s[from..i];
    forall k | 1 <= k < |p| ensures !(EndsSentence(p[k - 1]) && IsSpace(p[k])) {
      if k < |p| - 1 {
        assert p[k - 1] == q[k - 1] && p[k] == q[k];
      } else {
        assert p[k - 1] == s[i - 1] && p[k] == s[i];
      }
    }
  }

  /** Before the scan position, no piece boundary was missed and the current piece has not ended. */
  ghost predicate PieceStart(s: string, from: nat)
    requires from <= |s|
  {
    from == 0 || !EndsSentence(s[from - 1])
  }

  /** Every piece but the last is non-empty and ends with a sentence mark. */
  predicate PiecesEndSentences(ps: seq<string>) {
    forall k :: 0 <= k < |ps| - 1 ==> ps[k] != [] && EndsSentence(ps[k][|ps[k]| - 1])
  }

  lemma ConsPieceEndsSentences(p: string, rest: seq<string>)
    requires p != [] && EndsSentence(p[|p| - 1])
    requires rest != [] && PiecesEndSentences(rest)
    ensures PiecesEndSentences([p] + rest)
  {
    var ps := [p] + rest;
    forall k | 0 < k < |ps| - 1 ensures ps[k] != [] && EndsSentence(ps[k][|ps[k]| - 1]) {
      assert ps[k] == rest[k - 1];
    }
  }

  /**
   * Every piece but the last is non-empty and ends a sentence: the split
   * happens right after the mark.
   */
  lemma {:induction false} SplitFromEndsSentences(s: string, from: nat, i: nat)
    requires from <= i <= |s| && (i == from ==> PieceStart(s, from))
    ensures var ps := SplitFrom(s, from, i); ps != [] && PiecesEndSentences(ps)
    decreases |s| - i
  {
    if i == |s| {
    } else if i > 0 && EndsSentence(s[i - 1]) && IsSpace(s[i]) {
      var j := RunEnd(s, i);
      assert j > i && IsSpace(s[j - 1]);
      SplitFromEndsSentences(s, j, j);
      var p := s[from..i];
      assert i > from;
      assert p[|p| - 1] == s[i - 1];
      ConsPieceEndsSentences(p, SplitFrom(s, j, j));
    } else {
      SplitFromEndsSentences(s, from, i + 1);
    }
  }


  /** `.map(s => s.trim()).filter(Boolean)`: trimmed, blanks dropped, order kept. */
  function Clean(pieces: seq<string>): (r: seq<string>)
    ensures |r| <= |pieces|
    ensures forall x :: x in r ==> Trimmed(x)
  {
    if pieces == [] then []
    else
      var t := Trim(pieces[0]);
      if t == [] then Clean(pieces[1..]) else [t] + Clean(pieces[1..])
  }

  /** Every sentence is a trimmed piece. */
  lemma {:induction false} CleanTrimsPieces(pieces: seq<string>)
    ensures forall x :: x in Clean(pieces) ==> exists p :: p in pieces && x == Trim(p)
  {
    if pieces != [] {
      var rest := pieces[1..];
      CleanTrimsPieces(rest);
      forall x | x in Clean(pieces) ensures exists p :: p in pieces && x == Trim(p) {
        if x in Clean(rest) {
          var p :| p in rest && x == Trim(p);
          assert p in pieces;
        } else {
          assert x == Trim(pieces[0]) && pieces[0] in pieces;
        }
      }
    }
  }

  /** The sentences of a text, in order: each a non-empty trimmed piece of the split. */
  function Sentences(text: string): (r: seq<string>)
    ensures |r| <= |Split(Unwrap(text))|
    ensures forall x :: x in r ==> Trimmed(x) && exists p :: p in Split(Unwrap(text)) && x == Trim(p)
  {
    CleanTrimsPieces(Split(Unwrap(text)));
    Clean(Split(Unwrap(text)))
  }

  /** `keywords.map(k => k.toLowerCase())`. */
  function LowerAll(keywords: seq<string>): (r: seq<string>)
    ensures |r| == |keywords| && forall i :: 0 <= i < |keywords| ==> r[i] == Lower(keywords[i])
  {
    seq(|keywords|, i requires 0 <= i < |keywords| => Lower(keywords[i]))
  }

  /** `lowerKeywords.some(k => low.includes(k))`. */
  predicate Mentions(s: string, lowerKeywords: seq<string>) {
    exists k :: k in lowerKeywords && Contains(Lower(s), k)
  }

  /** The sentences that mention a keyword, in order: the reference for what is collected. */
  function Mentioning(sentences: seq<string>, lowerKeywords: seq<string>): (r: seq<string>)
    ensures |r| <= |sentences|
    ensures forall x :: x in r <==> x in sentences && Mentions(x, lowerKeywords)
  {
    if sentences == [] then []
    else
      var rest := Mentioning(sentences[1..], lowerKeywords);
      assert forall x :: x in sentences <==> x == sentences[0] || x in sentences[1..];
      if Mentions(sentences[0], lowerKeywords) then [sentences[0]] + rest else rest
  }

  lemma {:induction false} MentioningAppend(a: seq<string>, b: seq<string>, keys: seq<string>)
    ensures Mentioning(a + b, keys) == Mentioning(a, keys) + Mentioning(b, keys)
    decreases |a|
  {
    if a == [] {
      assert a + b == b;
    } else {
      assert (a + b)[1..] == a[1..] + b;
      MentioningAppend(a[1..], b, keys);
    }
  }

  /** How many sentences are collected at most: `found` is pushed before the count is compared, so at least one. */
  function Limit(maxCount: int): (n: nat)
    ensures n >= 1
    ensures maxCount >= 1 ==> n == maxCount
  {
    if maxCount >= 1 then maxCount else 1
  }

  /** The first `n` elements of `xs`, or all of them. */
  function Take(xs: seq<string>, n: nat): (r: seq<string>)
    ensures |r| <= n && r <= xs
    ensures |r| == n || r == xs
  {
    if |xs| <= n then xs else xs[..n]
  }

  /**
   * What is collected: at most `Limit(maxCount)` sentences of the text, each
   * trimmed, non-empty and mentioning a keyword, in text order.
   */
  lemma CollectedSentences(text: string, keywords: seq<string>, maxCount: int)
    ensures var found := Take(Mentioning(Sentences(text), LowerAll(keywords)), Limit(maxCount));
      |found| <= Limit(maxCount) &&
      (forall x :: x in found ==> x in Sentences(text) && Mentions(x, LowerAll(keywords))) &&
      (forall x :: x in found ==> Trimmed(x))
  {
    var all := Mentioning(Sentences(text), LowerAll(keywords));
    var found := Take(all, Limit(maxCount));
    forall x | x in found ensures x in all {
      var i :| 0 <= i < |found| && found[i] == x;
      assert all[i] == x;
    }
  }

  /** One more sentence adds itself exactly when it mentions a keyword. */
  lemma MentioningStep(sentences: seq<string>, i: nat, keys: seq<string>)
    requires i < |sentences|
    ensures Mentioning(sentences[..i + 1], keys) ==
      Mentioning(sentences[..i], keys) + if Mentions(sentences[i], keys) then [sentences[i]] else []
  {
    var s := sentences[i];
    assert sentences[..i + 1] == sentences[..i] + [s];
    MentioningAppend(sentences[..i], [s], keys);
    assert [s][1..] == [];
  }

  /** Once the first `k` sentences gave `Limit(maxCount)` matches, those are the ones collected. */
  lemma StopEarly(sentences: seq<string>, k: nat, keys: seq<string>, maxCount: int)
    requires k <= |sentences| && |Mentioning(sentences[..k], keys)| == Limit(maxCount)
    ensures Mentioning(sentences[..k], keys) == Take(Mentioning(sentences, keys), Limit(maxCount))
  {
    assert sentences == sentences[..k] + sentences[k..];
    MentioningAppend(sentences[..k], sentences[k..], keys);
    var found := Mentioning(sentences[..k], keys);
    assert (found + Mentioning(sentences[k..], keys))[..|found|] == found;
  }

  /**
   * The loop of `extractSentencesWithKeywords`: push each sentence that
   * mentions a keyword, and stop once `maxCount` were found.
   */
  method Collect(sentences: seq<string>, lowerKeywords: seq<string>, maxCount: int) returns (found: seq<string>)
    ensures found == Take(Mentioning(sentences, lowerKeywords), Limit(maxCount))
  {
    found := [];
    var i := 0;
    while i < |sentences|
      invariant 0 <= i <= |sentences|
      invariant found == Mentioning(sentences[..i], lowerKeywords)
      invariant |found| < Limit(maxCount)
    {
      var s := sentences[i];
      MentioningStep(sentences, i, lowerKeywords);
      if Mentions(s, lowerKeywords) {
        found := found + [s];
        if |found| >= Limit(maxCount) {
          StopEarly(sentences, i + 1, lowerKeywords, maxCount);
          return;
        }
      }
      i := i + 1;
    }
    assert sentences[..i] == sentences;
  }

  /**
   * `extractSentencesWithKeywords`: the first `Limit(maxCount)` sentences
   * that mention a keyword, ignoring case, in text order.
   */
  method ExtractSentencesWithKeywords(text: string, keywords: seq<string>, maxCount: int) returns (found: seq<string>)
    ensures found == Take(Mentioning(Sentences(text), LowerAll(keywords)), Limit(maxCount))
  {
    found := Collect(Sentences(text), LowerAll(keywords), maxCount);
  }
}
