# Question pairing: a verified model of `match_questions`

The tool reads question/answer records from a spreadsheet. It builds a slide deck that
shows each question to two groups, A and B, and writes an answer key. The only logic with
any algorithmic content is `match_questions` in `main.py`, the nested routine that chooses
which question group B sees next to each question of group A. This project models that
routine in Dafny (`pairing.dfy`, module `QuestionPairing`) and proves what it guarantees.

How the routine works, in the model's terms:

- `Question` is a datatype with the two text fields `question` and `answer`. Dafny's `==`
  on it compares both fields, like the dataclass's generated equality.
- Group A is the caller's list, unchanged and in order. The caller's list is an
  `array<Question>`. `MatchQuestions` has no `modifies` clause, so Dafny proves that the
  routine never writes to it.
- Group B starts as a fresh array that copies the caller's list. Every attempt shuffles
  this buffer in place. The buffer is not reset between attempts: each shuffle starts
  from where the previous attempt left it, as in the source.
- Random shuffling is replaced by an input. Each attempt receives the sequence of
  transpositions its shuffle performs. Any permutation can be written as such a
  sequence, so every outcome of a shuffle is covered. The unbounded `while invalid`
  retry loop consumes one shuffle per attempt. When the supplied shuffles run out, the
  result is `Unfinished`, meaning the source would still be retrying.
- The repair pass makes one left-to-right scan. Wherever A[i] and B[i] have the same
  question text (texts only), B[i] is exchanged with the nearest later element whose
  text differs, if there is one.
- The validity check then compares `matched_a[0]` with `matched_b[1]` as whole
  records, so answers count too. Its outcome depends on the pool size:
  - Zero questions: the check loop never runs, so the attempt is rejected.
  - One question: `IndexError`.
  - Two or more: the attempt is accepted exactly when the two records differ.
  - A rejected attempt clears both accumulators and starts another attempt.

What is proved:

- An accepted result has group A equal to the input. Group B has the same length and is
  a permutation of the input (the same multiset of records). The first record of A
  differs from the second record of B, and the pool has at least two questions.
- Every self-match left in group B is *stuck*: all later elements of B share its
  question text, so no forward swap could have removed it. As a consequence, when all
  question texts in the pool are distinct, only the last pairing can show both groups
  the same question.
- The routine does NOT guarantee that the groups never see the same question. For any
  four questions q1..q4 with distinct texts, the arrangement q2, q3, q1, q4 passes the
  repair pass unchanged and is accepted, even though its last pairing shows q4 to both
  groups.
- `IndexError` happens exactly for a one-question pool, on the first attempt. An empty
  pool is rejected on every attempt, so the source never returns.
- The accumulators `matched_a` and `matched_b` live across attempts, as in the source,
  and are cleared only when the check rejects. They are empty whenever a new attempt
  starts, so the routine's assertion that `matched_a` has one entry per question never
  fails.

Three things the routine does not do, which a reader might expect of it:

- it does not guarantee that no position of the result is a self-match;
- it does not return two empty lists for an empty pool: it keeps retrying;
- it does not bound its retries.

## Model

| member | source | states |
|---|---|---|
| `QuestionPairing.Transpose` | main.py:43 | exchanging two positions of the buffer keeps its length and its multiset of records |
| `QuestionPairing.ApplyShuffle` | main.py:35 | a shuffle, given as its transpositions, keeps the buffer's length and multiset of records |
| `QuestionPairing.Shuffle` | main.py:35 | the in-place shuffle leaves the buffer equal to `ApplyShuffle` of its old contents |
| `QuestionPairing.FirstDifferent` | main.py:41-42 | the result is the smallest position at or after `from` whose question text differs, and every position skipped has the searched text; None means every remaining position has that text |
| `QuestionPairing.FindSwapPartner` | main.py:41-44 | the inner search loop returns exactly the first later position whose question text differs from A[i], or None |
| `QuestionPairing.RepairStep` | main.py:39-44 | one step keeps the buffer's length; the rule it applies is stated by `RepairStepRule` and its permutation and stuck-self-match properties by `RepairStepKeeps` |
| `QuestionPairing.RepairStepRule` | main.py:39-44 | at position i nothing moves when the texts already differ or when every later element has A[i]'s text; otherwise B[i] is exchanged with the smallest later j whose text differs from A[i] |
| `QuestionPairing.RepairStepKeeps` | main.py:39-44 | a repair step is a permutation, leaves positions before i untouched, and leaves the self-match at i (if any remains) stuck |
| `QuestionPairing.RepairAt` | main.py:39-44 | the in-place step at position i turns the buffer into `RepairStep` of its old contents |
| `QuestionPairing.RepairFrom` | main.py:37-48 | the pass from position i on keeps the buffer's length; `RepairFromKeeps` proves it a permutation that leaves every remaining self-match stuck |
| `QuestionPairing.RepairFromKeeps` | main.py:37-48 | the rest of the pass is a permutation, never changes a position already passed, and leaves every self-match stuck |
| `QuestionPairing.RepairPass` | main.py:37-48 | after the `for i` loop the buffer is the repaired arrangement, and the loop has appended the input in order to `matched_a` and the final buffer to `matched_b` |
| `QuestionPairing.Check` | main.py:52-58 | the verdict accepts exactly when A has an element, B has at least two and `matched_a[0] != matched_b[1]` as whole records; it is `IndexError` exactly when A is non-empty and B has fewer than two; otherwise it rejects |
| `QuestionPairing.ValidityCheck` | main.py:52-58 | the check loop returns `Check`'s verdict; when it finds the two records equal it clears both accumulators, and otherwise leaves them as they were |
| `QuestionPairing.Attempt` | main.py:35-58 | one attempt, entered with empty accumulators (so the assertion on `len(matched_a)` holds), leaves the buffer shuffled then repaired and returns the check's verdict on it; a rejected attempt leaves both accumulators empty, any other leaves the input and the buffer in them |
| `QuestionPairing.Pairing` | main.py:33-58 | the retry loop's outcome: when it returns groups, group A is the input, group B has the input's length, and the check accepts them |
| `QuestionPairing.PairingAccepted` | main.py:33-60 | an accepted result has group A equal to the input, group B a same-length permutation of it with every self-match stuck, at least two questions, and A[0] != B[1] |
| `QuestionPairing.PairingRaisesOnlyForOneQuestion` | main.py:52-53 | the run ends in `IndexError` if and only if the pool has exactly one question and at least one attempt is made |
| `QuestionPairing.PairingNeverEndsForEmptyPool` | main.py:30-58 | with no questions every attempt is rejected, so the loop never returns a result |
| `QuestionPairing.MatchQuestions` | main.py:25-60 | the routine's result is the retry loop's outcome on a copy of the input; an accepted result satisfies `PairedAsAccepted`; `IndexError` happens exactly for one question; the caller's list is never written; the accumulators are empty whenever a new attempt starts, so the assertion on `len(matched_a)` never fails |
| `QuestionPairing.OnlyLastMayStaySelfMatched` | main.py:37-48 | with pairwise-distinct question texts, an arrangement whose self-matches are all stuck self-matches at no position except possibly the last |
| `QuestionPairing.AcceptedSelfMatchesOnlyAtLast` | main.py:33-60 | with pairwise-distinct question texts, the group B the routine returns shows group A's question at no position but the last |
| `QuestionPairing.AcceptedWithSelfMatch` | main.py:37-58 | the arrangement q2, q3, q1, q4 of four distinct-text questions is left unchanged by the repair pass and accepted, although its last pairing is a self-match |

## Left out

- Reading the spreadsheet (main.py:83-86) is not modelled: it is library I/O.
- Building and saving the slides (main.py:89-96) is not modelled: it consists of calls on
  objects of the presentation library.
- Writing the answer-key text file (main.py:98-103) is not modelled: it is file I/O
  around plain string formatting.
- The file-extension and existence checks and the command-line entry point
  (main.py:64-80, 106-107) are not modelled: they are argument and filesystem handling.
- The global random generator, its seeding (main.py:23) and the algorithm inside
  `random.shuffle` (main.py:35) are not modelled. Each shuffle is an input instead,
  given as its transpositions. Nothing is said about the distribution of shuffles or
  about determinism for a given seed.
- MatchQuestions: the unbounded `while invalid` loop (main.py:33) is driven by a finite
  sequence of shuffles. A run that exhausts it is reported as `Unfinished` rather than
  looping forever. Whether the source's loop ever terminates, and how likely acceptance
  is, is not modelled.
