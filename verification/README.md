# Student-Vote in Dafny

A model of the Student-Vote classroom poll (`StudentVote.java`), with proofs about it.

- **Questions.** A question is single-choice or multi-choice, and either kind has an ordered list of candidate answers.
- **Students.** A student has an identifier and the answer they wrote most recently.
- **The voting service.**
  - It holds one active question and a map from student identifier to accepted answer.
  - Configuring a question clears the map.
  - Submitting stores a student's answer only if the active question validates it. An invalid answer is dropped without notice.
  - The results count answer tokens:
    - A single-choice answer is one token, taken verbatim.
    - A multi-choice answer is split on `,` by Java's `String.split` rule. Each piece is then trimmed by Java's `String.trim` rule, and each trimmed piece is one token.

Modules, in dependency order:

- `Wrappers`: `Option`. It models Java's `null` where the program reads one without failing.
- `JavaStrings`: the exact behaviour of `split(",")` and `trim()`.
  - `split` drops trailing empty pieces, and a string with no comma is its own single piece.
  - `trim` strips every character at or below U+0020 at either end.
  - The file has a round trip between `Split` and `Join`, and a unique characterisation of `Trim`.
- `Questions`: the two `validateAns` variants, and the tokens a question reads from an answer.
- `Students`: the `Student` record.
- `Bags`: order-independent sums of token multisets over a set of keys. `SumRemove` shows that any visiting order gives the same multiset. This is the reason the unspecified iteration order of a `HashMap` cannot change a report.
- `Voting`: the service state, `configureQuestion` and `submitAns`, plus the reference meaning of a report, `TokenBag`. `TokenBag` is the multiset of all tokens of all stored answers.
- `Counting`: the counting loops of `printResults`, as methods on plain token lists. Each is proved to produce `CountsOf` of the tokens it has seen.
- `Report`: the whole counting pass of `printResults`. It is proved equal to `CountsOf(TokenBag(svc))`.
- `Scenarios`: the simulation's polls and edge cases, with fixed answers.

Behaviour of the code worth knowing, which the model keeps:

- **No minimum number of pieces.** `validateAns` of a multi-choice question has no at-least-one-piece check (StudentVote.java:52-60). So an answer made only of commas (`","`), which splits into no pieces, is accepted, stored, and adds no token to the report; see `Questions.OnlyCommasAcceptedVacuously`.
- **A null dereference without a question.** Submitting before any configuration dereferences a null question (StudentVote.java:89); the model makes an active question a precondition of `Submit`.
- **Reporting before configuration.** `printResults` with no question and no submissions prints nothing: the `instanceof` test sits inside the loop over submissions. The model returns an empty map there and has no error path.

## Model

| member | source | states |
|---|---|---|
| JavaStrings.SplitShape | StudentVote.java:53 | `split(",")` never yields a piece containing a comma. A string with no comma is its own single piece. Otherwise the result is the comma-separated pieces up to the last non-empty one, and every dropped piece is empty. |
| JavaStrings.RawSplitJoin | StudentVote.java:53 | Joining comma-free pieces with `,` and splitting again gives the same pieces, before trailing empties are dropped. |
| JavaStrings.SplitJoin | StudentVote.java:98 | Splitting undoes joining for two or more comma-free pieces whose last piece is not empty. |
| JavaStrings.SplitIgnoresTrailingComma | StudentVote.java:53 | A comma appended to a non-empty string does not change its split. |
| JavaStrings.Trim | StudentVote.java:55 | The result of `trim()` has no character at or below U+0020 at either end. |
| JavaStrings.TrimShape | StudentVote.java:100 | `trim()` returns a contiguous slice of its input and removes only characters at or below U+0020 from before and after it. |
| JavaStrings.TrimUnique | StudentVote.java:55 | A trimmed string padded on both sides with characters at or below U+0020 trims back to itself. This characterises `trim` completely. |
| JavaStrings.TrimIdempotent | StudentVote.java:55 | Trimming twice is the same as trimming once. |
| Questions.TrimAll | StudentVote.java:54-55 | Every piece is trimmed, in order, and none is added or lost. |
| Questions.ValidateJoin | StudentVote.java:52-72 | Both `validateAns` variants on an answer written as two or more comma-free pieces joined by commas, the last one non-empty: multi-choice accepts it iff every piece, once trimmed, is a candidate; single-choice accepts it iff the whole string, commas and spaces included, is a candidate. |
| Questions.ValidIffTokensAreCandidates | StudentVote.java:52-60 | An answer is valid iff every token the report would count for it is a candidate. This holds in both directions and for both question kinds. |
| Questions.MultiWithoutComma | StudentVote.java:53-55 | A multi-choice answer without a comma is one token, its trimmed self, and it is valid iff that token is a candidate. |
| Questions.OnlyCommasAcceptedVacuously | StudentVote.java:52-60 | An answer made only of commas yields no tokens and is accepted by every multi-choice question. |
| Questions.TrailingCommaIgnored | StudentVote.java:53 | A comma appended to a non-empty multi-choice answer changes neither its validity nor its tokens. |
| Questions.EmptyAnswer | StudentVote.java:52-60 | The empty answer is one empty token for both question kinds. It is valid iff the empty string is a candidate. |
| Students.NewStudent | StudentVote.java:8-10 | A new student keeps the given identifier and has no answer yet. |
| Students.SubmitAnswer | StudentVote.java:16-18 | Writing an answer stores exactly that answer and leaves the identifier unchanged. |
| Students.LastAnswerWins | StudentVote.java:16-18 | After two writes only the second answer remains. |
| Voting.Init | StudentVote.java:79-81 | A new service has no question and no submissions, and it satisfies the invariant. |
| Voting.Configure | StudentVote.java:83-86 | The given question becomes active and all submissions are discarded. The invariant holds afterwards, whatever was stored before. |
| Voting.Submit | StudentVote.java:88-92 | An accepted answer is stored under the student's identifier, replacing any earlier answer. A rejected answer leaves the service exactly as it was. No other student's entry changes, the question does not change, and the invariant that every stored answer is valid is preserved. |
| Voting.OverwriteLaw | StudentVote.java:89-90 | If a student's second accepted submission follows a first one, the result equals submitting only the second. |
| Voting.ConfigureClearsReport | StudentVote.java:85 | Right after configuration the report is empty. |
| Voting.SubmitReport | StudentVote.java:89-90 | After a submission, the report changes as follows: a rejected answer changes nothing; an accepted answer from a new student adds its tokens; an accepted resubmission swaps the old answer's tokens for the new ones, so no student is counted twice. |
| Voting.SingleChoiceReport | StudentVote.java:103-105 | For a single-choice question, the count of `t` is the number of students whose stored answer is exactly `t`. The counts add up to the number of stored students. |
| Voting.ReportedIffSomeAnswerYields | StudentVote.java:96-102 | A token has a non-zero count iff some stored answer yields it. |
| Voting.ReportedTokensAreCandidates | StudentVote.java:96-102 | Under the invariant, every token with a count is a candidate of the active question. |
| Bags.SumRemove | StudentVote.java:96 | Summing token multisets over a key set gives the same result whichever key is taken first, so the order of the map's values is irrelevant. |
| Bags.BagOfPut | StudentVote.java:90 | Putting an answer under an identifier swaps that identifier's old tokens, if any, for the new answer's tokens. Every other entry keeps its contribution. |
| Counting.CountsOfAdd | StudentVote.java:101 | `getOrDefault(t, 0) + 1` is the count map of the bag with one more `t`. |
| Counting.CountTokens | StudentVote.java:99-102 | The inner loop turns the counts of a bag into the counts of that bag plus every token of the list, duplicates included. |
| Counting.CountAll | StudentVote.java:96-106 | Visiting the token lists in any order gives the count map of the multiset of all their tokens. |
| Report.Results | StudentVote.java:94-106 | The counts computed by `printResults` are exactly the multiplicities of `TokenBag`: a key for each token read from some stored answer, with its number of occurrences. |
| Scenarios.ReadTwo | StudentVote.java:137-139 | An answer built like the simulation's two-choice answer (`x + ", " + y`, letters from A-D) is valid and reads as the tokens `x` and `y`. |
| Scenarios.ReadPair | StudentVote.java:53-55 | Two letters joined by a bare comma read as those two letters and are valid. |
| Scenarios.RepeatedChoiceCountsTwice | StudentVote.java:99-101 | A letter chosen twice in one answer is counted twice. |
| Scenarios.InvalidAnswerDropped | StudentVote.java:89 | A comma-free answer whose trimmed text is not among A-D (such as "Z") is dropped, and the service stays as it was. |
| Scenarios.ThreeNew | StudentVote.java:88-106 | Three valid answers from three different students, submitted to an empty service, report all their tokens together. |
| Scenarios.MultiChoicePoll | StudentVote.java:120-148 | A multi-choice poll set up like the simulation's, over the letters A-D, with the answers "A", "B,C" and "A, D" from three different students, reports A:2, B:1, C:1, D:1. |
| Scenarios.SingleChoicePoll | StudentVote.java:124-164 | A single-choice poll set up like the simulation's, with the answers "1. Right", "1. Right" and "2. Wrong" reports 1. Right:2 and 2. Wrong:1. |

## Left out

- `SimulationDriver` (lines 115-165): its random choices and its hundred students are not modelled. The scenarios stand in for it: its two polls with fixed answers, and its two-choice answer shape for all letters.
- Printing (lines 109-111): the `<token> : <count>` lines and their order. The model stops at the count map.
- `getQ`, `getCanAns` and the question's prompt text (lines 26, 34-40): they are not used by validation or counting.
- Voting.Submit: submitting before any question is configured is a null dereference in the code, and so is a multi-choice question given a student who never answered. Both are excluded by the precondition `CanSubmit`. A single-choice question rejects an unanswered student, since `contains(null)` is false, and this is modelled.
- Report.Results: reporting with no question but with stored submissions cannot arise, because a submission needs a question. It is excluded by the precondition `Reportable`.
- Report.Results: counts are unbounded natural numbers, whereas `resultCount` holds Java `Integer`s and `getOrDefault(ans, 0) + 1` (lines 101 and 104) would wrap to a negative value after 2^31-1 occurrences of one token. The model does not represent that wrap-around.
- Voting.Invariant: candidate lists are fixed values here. Java keeps the caller's `List` by reference (line 31) and returns that same list from `getCanAns` (lines 38-40), so a caller could change it after answers are stored; the invariant, `Voting.Submit`'s preservation of it and `Voting.ReportedTokensAreCandidates` assume the list is not changed after configuration. The code never changes it.
- `HashMap` iteration order: left unspecified. `CountAll` visits keys in an arbitrary order, and its result is proved independent of that order.
- Java strings are sequences of UTF-16 code units; here `string` is Dafny's `seq<char>`, whose `char` is a Unicode scalar value. A Java string with an unpaired surrogate has no counterpart in the model, and a supplementary character is one `char` here where Java has two. On well-formed strings splitting on `,`, trimming at U+0020 and equality agree, because none of them can split or match half of a surrogate pair.
- Null candidate lists, null candidate elements and null question arguments are not modelled: candidate elements are assumed never null, which is what makes `contains(null)` false above. The code never builds any of them.
