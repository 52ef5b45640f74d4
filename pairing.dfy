/** A model of `match_questions`, the routine of the slide-deck generator that pairs
    every question shown to group A with a question shown to group B.

    Group A is the caller's list in its original order. Group B is a private copy of
    that list which is shuffled, then repaired by one left-to-right pass of forward
    swaps, then accepted or rejected by a check on fixed positions 0 and 1. The random
    shuffle is not modelled as an algorithm: each attempt is given the transpositions
    its shuffle performs. */
module QuestionPairing {

  /** A question record; `==` on it compares both fields, like the dataclass. */
  datatype Question = Question(question: string, answer: string)

  datatype Option<T> = None | Some(value: T)

  /** One exchange of two buffer positions. A shuffle is a sequence of them; every
      permutation of the buffer is the result of some such sequence. */
  datatype Transposition = Transposition(x: nat, y: nat)

  /** What the validity check concludes about one attempt. */
  datatype Verdict = Accept | Reject | IndexError

  /** What the whole routine does for a given series of shuffles: return the two
      groups, raise `IndexError`, or still be retrying once the series runs out. */
  datatype MatchResult =
    | Matched(groupA: seq<Question>, groupB: seq<Question>)
    | RaisedIndexError
    | Unfinished

  // ------------------------------------------------------------------------
  // Shuffling
  // ------------------------------------------------------------------------

  predicate FitsIn(sh: seq<Transposition>, n: nat)
  {
    forall k :: 0 <= k < |sh| ==> sh[k].x < n && sh[k].y < n
  }

  predicate AllFitIn(shuffles: seq<seq<Transposition>>, n: nat)
  {
    forall k :: 0 <= k < |shuffles| ==> FitsIn(shuffles[k], n)
  }

  /** Exchanges the elements at the two positions of `t`. */
  function Transpose(b: seq<Question>, t: Transposition): (r: seq<Question>)
    requires t.x < |b| && t.y < |b|
    ensures |r| == |b| && multiset(r) == multiset(b)
  {
    b[t.x := b[t.y]][t.y := b[t.x]]
  }

  /** The buffer after performing the transpositions of `sh` from first to last. */
  function ApplyShuffle(b: seq<Question>, sh: seq<Transposition>): (r: seq<Question>)
    requires FitsIn(sh, |b|)
    ensures |r| == |b| && multiset(r) == multiset(b)
    decreases |sh|
  {
    if sh == [] then b
    else
      var b' := Transpose(b, sh[0]);
      assert FitsIn(sh[1..], |b'|) by {
        forall k | 0 <= k < |sh[1..]| ensures sh[1..][k].x < |b'| && sh[1..][k].y < |b'| {
          assert sh[1..][k] == sh[k + 1];
        }
      }
      ApplyShuffle(b', sh[1..])
  }

  /** The in-place shuffle of the buffer `questions_b`. */
  method Shuffle(buf: array<Question>, sh: seq<Transposition>)
    requires FitsIn(sh, buf.Length)
    modifies buf
    ensures buf[..] == ApplyShuffle(old(buf[..]), sh)
  {
    for k := 0 to |sh|
      invariant FitsIn(sh[k..], buf.Length)
      invariant ApplyShuffle(buf[..], sh[k..]) == ApplyShuffle(old(buf[..]), sh)
    {
      ghost var before := buf[..];
      var t := sh[k];
      var held := buf[t.x];
      buf[t.x] := buf[t.y];
      buf[t.y] := held;
      assert buf[..] == Transpose(before, t);
      assert sh[k..][1..] == sh[k + 1..];
    }
    assert sh[|sh|..] == [];
  }

  // ------------------------------------------------------------------------
  // The repair pass
  // ------------------------------------------------------------------------

  /** The first position at or after `from` whose question text differs from `text`. */
  function FirstDifferent(text: string, b: seq<Question>, from: nat): (r: Option<nat>)
    ensures r.Some? ==>
      && from <= r.value < |b|
      && b[r.value].question != text
      && forall k :: from <= k < r.value ==> b[k].question == text
    ensures r.None? ==> forall k :: from <= k < |b| ==> b[k].question == text
    decreases |b| - from
  {
    if from >= |b| then None
    else if b[from].question != text then Some(from)
    else FirstDifferent(text, b, from + 1)
  }

  /** The inner search loop: the first position after `i` whose question text differs
      from `text`, or None when every later position has that text. */
  method FindSwapPartner(text: string, buf: array<Question>, i: nat) returns (partner: Option<nat>)
    requires i < buf.Length
    ensures partner == FirstDifferent(text, buf[..], i + 1)
  {
    for j := i + 1 to buf.Length
      invariant forall k :: i + 1 <= k < j ==> buf[k].question == text
      invariant FirstDifferent(text, buf[..], j) == FirstDifferent(text, buf[..], i + 1)
    {
      if text != buf[j].question {
        return Some(j);
      }
    }
    return None;
  }

  /** Every self-match before position `i` is stuck: all later elements of `b` carry
      the same question text, so no forward swap could have removed it. */
  predicate SelfMatchesStuck(qa: seq<Question>, b: seq<Question>, i: nat)
  {
    forall k :: 0 <= k < i && k < |qa| && k < |b| && b[k].question == qa[k].question ==>
      forall j :: k < j < |b| ==> b[j].question == qa[k].question
  }

  /** One step of the repair pass, at position `i`. */
  function RepairStep(qa: seq<Question>, b: seq<Question>, i: nat): (r: seq<Question>)
    requires |b| == |qa| && i < |b|
    ensures |r| == |b|
  {
    if qa[i].question == b[i].question then
      match FirstDifferent(qa[i].question, b, i + 1)
      case Some(j) => Transpose(b, Transposition(i, j))
      case None => b
    else
      b
  }

  /** A repair step only rearranges the buffer, leaves the positions before `i` alone,
      and keeps every self-match before `i`, and the one at `i` if any remains, stuck. */
  lemma RepairStepKeeps(qa: seq<Question>, b: seq<Question>, i: nat)
    requires |b| == |qa| && i < |b|
    ensures var r := RepairStep(qa, b, i);
      && multiset(r) == multiset(b)
      && r[..i] == b[..i]
      && (SelfMatchesStuck(qa, b, i) ==> SelfMatchesStuck(qa, r, i + 1))
  {
  }

  /** The repair rule at position `i`: nothing moves when the pair already differs or
      when every later element has the same text; otherwise the element at `i` is
      exchanged with the nearest later element whose text differs. */
  lemma RepairStepRule(qa: seq<Question>, b: seq<Question>, i: nat)
    requires |b| == |qa| && i < |b|
    ensures b[i].question != qa[i].question ==> RepairStep(qa, b, i) == b
    ensures (forall k :: i < k < |b| ==> b[k].question == qa[i].question) ==> RepairStep(qa, b, i) == b
    ensures forall j ::
      && i < j < |b|
      && b[i].question == qa[i].question
      && b[j].question != qa[i].question
      && (forall k :: i < k < j ==> b[k].question == qa[i].question)
      ==> RepairStep(qa, b, i) == b[i := b[j]][j := b[i]]
  {
  }

  /** The buffer after the repair pass has run over positions `i` to the end. */
  function RepairFrom(qa: seq<Question>, b: seq<Question>, i: nat): (r: seq<Question>)
    requires |b| == |qa| && i <= |b|
    ensures |r| == |b|
    decreases |b| - i
  {
    if i == |b| then b else RepairFrom(qa, RepairStep(qa, b, i), i + 1)
  }

  /** The rest of the pass only rearranges the buffer and never changes a position
      it has passed. */
  lemma {:induction false} RepairFromPermutes(qa: seq<Question>, b: seq<Question>, i: nat)
    requires |b| == |qa| && i <= |b|
    ensures var r := RepairFrom(qa, b, i);
      multiset(r) == multiset(b) && r[..i] == b[..i]
    decreases |b| - i
  {
    if i < |b| {
      var s := RepairStep(qa, b, i);
      assert multiset(s) == multiset(b) && s[..i] == b[..i];
      RepairFromPermutes(qa, s, i + 1);
      var r := RepairFrom(qa, s, i + 1);
      assert RepairFrom(qa, b, i) == r;
      assert r[..i] == r[..i + 1][..i];
      assert s[..i] == s[..i + 1][..i];
    }
  }

  /** The rest of the pass leaves every self-match stuck. */
  lemma {:induction false} RepairFromStuck(qa: seq<Question>, b: seq<Question>, i: nat)
    requires |b| == |qa| && i <= |b| && SelfMatchesStuck(qa, b, i)
    ensures SelfMatchesStuck(qa, RepairFrom(qa, b, i), |b|)
    decreases |b| - i
  {
    if i < |b| {
      RepairStepKeeps(qa, b, i);
      RepairFromStuck(qa, RepairStep(qa, b, i), i + 1);
    }
  }

  /** The rest of the pass only rearranges the buffer, never changes a position it
      has passed, and leaves every self-match stuck. */
  lemma RepairFromKeeps(qa: seq<Question>, b: seq<Question>, i: nat)
    requires |b| == |qa| && i <= |b|
    ensures var r := RepairFrom(qa, b, i);
      && multiset(r) == multiset(b)
      && r[..i] == b[..i]
      && (SelfMatchesStuck(qa, b, i) ==> SelfMatchesStuck(qa, r, |r|))
  {
    RepairFromPermutes(qa, b, i);
    if SelfMatchesStuck(qa, b, i) {
      RepairFromStuck(qa, b, i);
    }
  }

  /** The body of the repair loop at position `i`: on a self-match, exchange the
      element with the first later one whose question text differs, if any. */
  method RepairAt(qa: seq<Question>, buf: array<Question>, i: nat)
    requires buf.Length == |qa| && i < |qa|
    modifies buf
    ensures buf[..] == RepairStep(qa, old(buf[..]), i)
  {
    if qa[i].question == buf[i].question {
      var partner := FindSwapPartner(qa[i].question, buf, i);
      if partner.Some? {
        var j := partner.value;
        buf[i], buf[j] := buf[j], buf[i];
        assert buf[..] == Transpose(old(buf[..]), Transposition(i, j));
      }
    }
  }

  /** Performing step `i` and then the pass from `i + 1` is the pass from `i`; the
      step leaves the positions before `i` alone. */
  lemma RepairFromStep(qa: seq<Question>, before: seq<Question>, after: seq<Question>, i: nat)
    requires |before| == |qa| && i < |qa| && after == RepairStep(qa, before, i)
    ensures RepairFrom(qa, after, i + 1) == RepairFrom(qa, before, i)
    ensures after[..i] == before[..i]
  {
    RepairStepKeeps(qa, before, i);
  }

  lemma AppendNext(acc: seq<Question>, s: seq<Question>, i: nat)
    requires i < |s|
    ensures acc + s[..i + 1] == acc + s[..i] + [s[i]]
  {
    assert s[..i + 1] == s[..i] + [s[i]];
  }

  /** The `for i` loop of one attempt: repairs the buffer in place and appends each
      pairing to the accumulators `matched_a` and `matched_b`, which the caller passes
      in as `accA` and `accB`. */
  method RepairPass(qa: seq<Question>, buf: array<Question>, accA: seq<Question>, accB: seq<Question>)
    returns (matchedA: seq<Question>, matchedB: seq<Question>)
    requires buf.Length == |qa|
    modifies buf
    ensures buf[..] == RepairFrom(qa, old(buf[..]), 0)
    ensures matchedA == accA + qa && matchedB == accB + buf[..]
  {
    matchedA, matchedB := accA, accB;
    for i := 0 to |qa|
      invariant RepairFrom(qa, buf[..], i) == RepairFrom(qa, old(buf[..]), 0)
      invariant matchedA == accA + qa[..i] && matchedB == accB + buf[..i]
    {
      ghost var before := buf[..];
      RepairAt(qa, buf, i);
      RepairFromStep(qa, before, buf[..], i);
      AppendNext(accA, qa, i);
      AppendNext(accB, buf[..], i);
      matchedA := matchedA + [qa[i]];
      matchedB := matchedB + [buf[i]];
    }
    assert qa[..|qa|] == qa;
    assert buf[..buf.Length] == buf[..];
  }

  // ------------------------------------------------------------------------
  // The validity check
  // ------------------------------------------------------------------------

  /** The verdict of the check on `matched_a[0]` and `matched_b[1]`: an empty pairing
      is rejected, a one-element group B raises `IndexError`, and otherwise the
      attempt is accepted exactly when the two records differ. */
  function Check(matchedA: seq<Question>, matchedB: seq<Question>): (v: Verdict)
    ensures v == Accept <==> |matchedA| > 0 && |matchedB| >= 2 && matchedA[0] != matchedB[1]
    ensures v == IndexError <==> |matchedA| > 0 && |matchedB| < 2
  {
    if |matchedA| == 0 then Reject
    else if |matchedB| < 2 then IndexError
    else if matchedA[0] != matchedB[1] then Accept
    else Reject
  }

  /** The check loop: it compares the same two records once per pairing and, when it
      finds them equal, clears both accumulators before leaving the loop. */
  method ValidityCheck(matchedA: seq<Question>, matchedB: seq<Question>)
    returns (v: Verdict, keptA: seq<Question>, keptB: seq<Question>)
    ensures v == Check(matchedA, matchedB)
    ensures v == Reject && |matchedA| > 0 ==> keptA == [] && keptB == []
    ensures !(v == Reject && |matchedA| > 0) ==> keptA == matchedA && keptB == matchedB
  {
    keptA, keptB := matchedA, matchedB;
    var invalid := true;
    for i := 0 to |matchedA|
      invariant keptA == matchedA && keptB == matchedB
      invariant i == 0 ==> invalid
      invariant i > 0 ==> |matchedB| >= 2 && matchedA[0] != matchedB[1] && !invalid
    {
      if |keptB| < 2 {
        return IndexError, keptA, keptB;
      }
      if keptA[0] != keptB[1] {
        invalid := false;
      } else {
        invalid := true;
        keptA, keptB := [], [];
        break;
      }
    }
    v := if invalid then Reject else Accept;
  }

  // ------------------------------------------------------------------------
  // The retry loop
  // ------------------------------------------------------------------------

  lemma SuffixFits(shuffles: seq<seq<Transposition>>, n: nat, from: nat)
    requires AllFitIn(shuffles, n) && from <= |shuffles|
    ensures AllFitIn(shuffles[from..], n)
  {
    forall k | 0 <= k < |shuffles[from..]| ensures FitsIn(shuffles[from..][k], n) {
      assert shuffles[from..][k] == shuffles[from + k];
    }
  }

  /** The outcome of the retry loop when the buffer holds `b` and the remaining
      attempts shuffle it by `shuffles`. */
  function Pairing(qa: seq<Question>, b: seq<Question>, shuffles: seq<seq<Transposition>>): (r: MatchResult)
    requires |b| == |qa| && AllFitIn(shuffles, |qa|)
    ensures r.Matched? ==> r.groupA == qa && |r.groupB| == |qa| && Check(qa, r.groupB) == Accept
    decreases |shuffles|
  {
    if shuffles == [] then Unfinished
    else
      var repaired := RepairFrom(qa, ApplyShuffle(b, shuffles[0]), 0);
      match Check(qa, repaired)
      case Accept => Matched(qa, repaired)
      case IndexError => RaisedIndexError
      case Reject =>
        SuffixFits(shuffles, |qa|, 1);
        Pairing(qa, repaired, shuffles[1..])
  }

  /** One turn of the retry loop, from attempt number `attempt` on, given the buffer
      `after` that the attempt leaves and the check's verdict on it. */
  lemma PairingAttempt(qa: seq<Question>, before: seq<Question>, shuffles: seq<seq<Transposition>>,
                       attempt: nat, after: seq<Question>, verdict: Verdict)
    requires |before| == |qa| && AllFitIn(shuffles, |qa|) && attempt < |shuffles|
    requires after == RepairFrom(qa, ApplyShuffle(before, shuffles[attempt]), 0)
    requires verdict == Check(qa, after)
    ensures AllFitIn(shuffles[attempt..], |qa|) && AllFitIn(shuffles[attempt + 1..], |qa|)
    ensures verdict == Accept ==> Pairing(qa, before, shuffles[attempt..]) == Matched(qa, after)
    ensures verdict == IndexError ==> Pairing(qa, before, shuffles[attempt..]) == RaisedIndexError
    ensures verdict == Reject ==>
      Pairing(qa, before, shuffles[attempt..]) == Pairing(qa, after, shuffles[attempt + 1..])
  {
    SuffixFits(shuffles, |qa|, attempt);
    SuffixFits(shuffles, |qa|, attempt + 1);
    assert shuffles[attempt..][0] == shuffles[attempt];
    assert shuffles[attempt..][1..] == shuffles[attempt + 1..];
  }

  /** What an accepted pairing of the pool `qa` looks like: group A is the pool in
      order, group B is a permutation of it of the same length, the first record of A
      differs from the second record of B, and every self-match left in B is stuck. */
  predicate PairedAsAccepted(qa: seq<Question>, groupA: seq<Question>, groupB: seq<Question>)
  {
    && groupA == qa
    && |groupB| == |qa|
    && multiset(groupB) == multiset(qa)
    && |qa| >= 2
    && groupA[0] != groupB[1]
    && SelfMatchesStuck(qa, groupB, |qa|)
  }

  /** An accepted pairing: group A is the input in order, group B is a permutation of
      it of the same length, the first record of A differs from the second of B, and
      every self-match left in B is stuck. */
  lemma {:induction false} PairingAccepted(qa: seq<Question>, b: seq<Question>, shuffles: seq<seq<Transposition>>)
    requires |b| == |qa| && multiset(b) == multiset(qa) && AllFitIn(shuffles, |qa|)
    ensures var r := Pairing(qa, b, shuffles);
      r.Matched? ==> PairedAsAccepted(qa, r.groupA, r.groupB)
    decreases |shuffles|
  {
    if shuffles != [] {
      var repaired := RepairFrom(qa, ApplyShuffle(b, shuffles[0]), 0);
      RepairFromKeeps(qa, ApplyShuffle(b, shuffles[0]), 0);
      if Check(qa, repaired) == Reject {
        SuffixFits(shuffles, |qa|, 1);
        PairingAccepted(qa, repaired, shuffles[1..]);
      }
    }
  }

  /** `IndexError` is raised exactly for a one-question pool, on the first attempt. */
  lemma {:induction false} PairingRaisesOnlyForOneQuestion(qa: seq<Question>, b: seq<Question>, shuffles: seq<seq<Transposition>>)
    requires |b| == |qa| && AllFitIn(shuffles, |qa|)
    ensures Pairing(qa, b, shuffles) == RaisedIndexError <==> |qa| == 1 && shuffles != []
    decreases |shuffles|
  {
    if shuffles != [] {
      var repaired := RepairFrom(qa, ApplyShuffle(b, shuffles[0]), 0);
      if Check(qa, repaired) == Reject {
        SuffixFits(shuffles, |qa|, 1);
        PairingRaisesOnlyForOneQuestion(qa, repaired, shuffles[1..]);
      }
    }
  }

  /** With no questions every attempt is rejected, so the loop never returns. */
  lemma {:induction false} PairingNeverEndsForEmptyPool(qa: seq<Question>, b: seq<Question>, shuffles: seq<seq<Transposition>>)
    requires |qa| == 0 && |b| == 0 && AllFitIn(shuffles, 0)
    ensures Pairing(qa, b, shuffles) == Unfinished
    decreases |shuffles|
  {
    if shuffles != [] {
      var repaired := RepairFrom(qa, ApplyShuffle(b, shuffles[0]), 0);
      SuffixFits(shuffles, 0, 1);
      PairingNeverEndsForEmptyPool(qa, repaired, shuffles[1..]);
    }
  }

  /** One turn of the `while invalid` loop: shuffle, repair pass, the assertion on
      the length of `matched_a`, and the check loop. The accumulators come in as
      `accA` and `accB`; the assertion holds because they are empty on entry. */
  method Attempt(qa: seq<Question>, buf: array<Question>, sh: seq<Transposition>,
                 accA: seq<Question>, accB: seq<Question>)
    returns (verdict: Verdict, matchedA: seq<Question>, matchedB: seq<Question>)
    requires buf.Length == |qa| && FitsIn(sh, |qa|)
    requires accA == [] && accB == []
    modifies buf
    ensures buf[..] == RepairFrom(qa, ApplyShuffle(old(buf[..]), sh), 0)
    ensures verdict == Check(qa, buf[..])
    ensures verdict == Reject ==> matchedA == [] && matchedB == []
    ensures verdict != Reject ==> matchedA == qa && matchedB == buf[..]
  {
    Shuffle(buf, sh);
    matchedA, matchedB := RepairPass(qa, buf, accA, accB);
    assert |matchedA| == |qa|;
    verdict, matchedA, matchedB := ValidityCheck(matchedA, matchedB);
  }

  /** The routine itself. The caller's list is only read (no `modifies` clause); the
      buffer is a fresh copy that every attempt reshuffles where the last one left it. */
  method MatchQuestions(questionsA: array<Question>, shuffles: seq<seq<Transposition>>) returns (r: MatchResult)
    requires AllFitIn(shuffles, questionsA.Length)
    ensures r == Pairing(questionsA[..], questionsA[..], shuffles)
    ensures r.Matched? ==> PairedAsAccepted(questionsA[..], r.groupA, r.groupB)
    ensures r == RaisedIndexError <==> questionsA.Length == 1 && shuffles != []
  {
    var qa := questionsA[..];

    var buf := new Question[questionsA.Length];
    forall k | 0 <= k < buf.Length {
      buf[k] := questionsA[k];
    }
    assert buf[..] == qa;

    var invalid := true;
    var matchedA: seq<Question>, matchedB: seq<Question> := [], [];
    var attempt := 0;
    while invalid
      invariant 0 <= attempt <= |shuffles|
      invariant buf.Length == |qa| && questionsA[..] == qa
      invariant invalid ==> matchedA == [] && matchedB == []
      invariant invalid ==> Pairing(qa, buf[..], shuffles[attempt..]) == Pairing(qa, qa, shuffles)
      invariant !invalid ==> Pairing(qa, qa, shuffles) == Matched(matchedA, matchedB)
      decreases |shuffles| - attempt, invalid
    {
      if attempt == |shuffles| {
        assert shuffles[attempt..] == [];
        r := Unfinished;
        PairingRaisesOnlyForOneQuestion(qa, qa, shuffles);
        return;
      }
      ghost var before := buf[..];
      var verdict;
      verdict, matchedA, matchedB := Attempt(qa, buf, shuffles[attempt], matchedA, matchedB);
      PairingAttempt(qa, before, shuffles, attempt, buf[..], verdict);
      if verdict == IndexError {
        r := RaisedIndexError;
        PairingRaisesOnlyForOneQuestion(qa, qa, shuffles);
        return;
      }
      invalid := verdict != Accept;
      attempt := attempt + 1;
    }
    r := Matched(matchedA, matchedB);
    PairingAccepted(qa, qa, shuffles);
  }

  // ------------------------------------------------------------------------
  // Consequences of the repair pass
  // ------------------------------------------------------------------------

  /** Pairwise distinct question texts. */
  predicate DistinctTexts(s: seq<Question>)
  {
    forall p, q :: 0 <= p < q < |s| ==> s[p].question != s[q].question
  }

  lemma RecordsOnceEach(s: seq<Question>)
    requires DistinctTexts(s)
    ensures forall k :: 0 <= k < |s| ==> multiset(s)[s[k]] == 1
  {
    forall k | 0 <= k < |s| ensures multiset(s)[s[k]] == 1 {
      assert s == s[..k] + [s[k]] + s[k + 1..];
      assert s[k] !in s[..k];
      assert s[k] !in s[k + 1..];
    }
  }

  lemma RepeatCounted(s: seq<Question>, p: nat, q: nat)
    requires p < q < |s|
    ensures multiset(s)[s[q]] >= 1
    ensures s[p] == s[q] ==> multiset(s)[s[p]] >= 2
  {
    assert s == s[..q] + s[q..];
    assert s[p] in s[..q];
    assert s[q] in s[q..];
  }

  /** Rearranging a list keeps its question texts pairwise distinct. */
  lemma {:induction false} DistinctTextsPermuted(qa: seq<Question>, b: seq<Question>)
    requires multiset(b) == multiset(qa) && DistinctTexts(qa)
    ensures DistinctTexts(b)
  {
    RecordsOnceEach(qa);
    forall p, q | 0 <= p < q < |b| ensures b[p].question != b[q].question {
      RepeatCounted(b, p, q);
      assert b[p] in multiset(qa) && b[q] in multiset(qa);
      var p' :| 0 <= p' < |qa| && qa[p'] == b[p];
      var q' :| 0 <= q' < |qa| && qa[q'] == b[q];
    }
  }

  lemma StuckSelfMatch(qa: seq<Question>, b: seq<Question>, k: nat, j: nat)
    requires |b| == |qa| && k < j < |b| && SelfMatchesStuck(qa, b, |b|)
    ensures b[k].question == qa[k].question ==> b[j].question == qa[k].question
  {
  }

  /** When the pool's question texts are pairwise distinct, a stuck self-match can only
      be at the last position: the repair pass leaves at most the last pairing with the
      same question for both groups. */
  lemma OnlyLastMayStaySelfMatched(qa: seq<Question>, b: seq<Question>)
    requires |b| == |qa| && multiset(b) == multiset(qa) && DistinctTexts(qa)
    requires SelfMatchesStuck(qa, b, |b|)
    ensures forall i :: 0 <= i < |b| - 1 ==> b[i].question != qa[i].question
  {
    DistinctTextsPermuted(qa, b);
    forall i | 0 <= i < |b| - 1 ensures b[i].question != qa[i].question {
      StuckSelfMatch(qa, b, i, |b| - 1);
    }
  }

  /** The routine's own result: when the pool's question texts are pairwise distinct,
      an accepted group B shows group A's question at no position but the last. */
  lemma AcceptedSelfMatchesOnlyAtLast(qa: seq<Question>, shuffles: seq<seq<Transposition>>)
    requires AllFitIn(shuffles, |qa|) && DistinctTexts(qa)
    ensures var r := Pairing(qa, qa, shuffles);
      r.Matched? ==> forall i :: 0 <= i < |qa| - 1 ==> r.groupB[i].question != qa[i].question
  {
    var r := Pairing(qa, qa, shuffles);
    PairingAccepted(qa, qa, shuffles);
    if r.Matched? {
      OnlyLastMayStaySelfMatched(qa, r.groupB);
    }
  }

  /** For any four questions q1..q4 with distinct texts, a shuffle that yields q2, q3,
      q1, q4 is accepted as it stands: the repair pass moves nothing (positions 0 to 2
      already differ, position 3 has no later element to exchange with) and q1 differs
      from q3. The last pairing still shows q4 to both groups, so the routine does not
      guarantee that the two groups never see the same question. */
  lemma AcceptedWithSelfMatch(q1: Question, q2: Question, q3: Question, q4: Question)
    requires DistinctTexts([q1, q2, q3, q4])
    ensures RepairFrom([q1, q2, q3, q4], [q2, q3, q1, q4], 0) == [q2, q3, q1, q4]
    ensures Check([q1, q2, q3, q4], [q2, q3, q1, q4]) == Accept
  {
    var qa, b := [q1, q2, q3, q4], [q2, q3, q1, q4];
    RepairStepRule(qa, b, 0);
    RepairStepRule(qa, b, 1);
    RepairStepRule(qa, b, 2);
    RepairStepRule(qa, b, 3);
    assert RepairFrom(qa, b, 3) == b;
    assert RepairFrom(qa, b, 2) == b;
    assert RepairFrom(qa, b, 1) == b;
  }
}
