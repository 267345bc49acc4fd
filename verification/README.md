# GeoQuiz navigation and answer checking, modelled in Dafny

GeoQuiz is a single-screen Android quiz. It shows one true/false
geography question at a time from a fixed bank of six. Two buttons submit
True or False, and a short notification answers "Correct!" or "Incorrect!".
Previous and Next buttons move circularly through the bank. The only state
is the index of the question on screen.

This project models that core in `MainActivity`:

- `kotlin_int.dfy` (module `KotlinInt`): Kotlin's 32-bit `Int`. Addition
  and subtraction wrap around, and `%` truncates toward zero. The cursor
  arithmetic is written with these operations, so `Next` and `Prev` are
  defined for every `Int` index, just as the Kotlin lambdas are.
- `questions.dfy` (module `Questions`): the `Question(text, answer)`
  record, a non-empty `Bank`, the six built-in questions, and list indexing.
  Indexing either yields the element or fails with `IndexOutOfBounds`,
  which models the JVM exception.
- `navigation.dfy` (module `Navigation`): the cursor. It has the range
  invariant, the initial index, Next and Previous, and lemmas about them:
  they preserve the invariant, wrap at both ends, undo each other, and cycle
  with period exactly the bank size through every question.
- `answers.dfy` (module `Answers`): the verdict of `checkAnswer` and the
  message that announces it.
- `quiz_screen.dfy` (module `QuizScreen`): the screen as a state machine
  over the four button events. A session started as the activity starts it
  never reads out of range. Its final index depends only on the net number
  of Next minus Previous presses. It shows one message per answer press.
  `Play` is the same event loop written with plain variables, proved to
  agree with the functional model.
- `residues.dfy` (module `Residues`): facts about Dafny's Euclidean `%`
  that the cursor proofs use.

The True and False lambdas in the source capture `currentQuestion`, which
is read once per composition. The Previous and Next lambdas read the
`currentIndex` state when they run. The model assumes each press is
handled after the recomposition caused by the previous press, so every
event reads the question at the current index. "## Left out" says what
this assumption does not cover.

## Model

| member | source | states |
|---|---|---|
| KotlinInt.Plus | app/src/main/java/com/example/geoquiz/MainActivity.kt:60 | Int addition agrees with exact addition whenever the sum fits in 32 bits, and always differs from it by a multiple of 2^32 (two's-complement wrap-around) |
| KotlinInt.Minus | app/src/main/java/com/example/geoquiz/MainActivity.kt:56 | Int subtraction agrees with exact subtraction whenever the difference fits in 32 bits, and always differs from it by a multiple of 2^32 |
| KotlinInt.Wrap | app/src/main/java/com/example/geoquiz/MainActivity.kt:56-60 | A result that fits is unchanged, one past either end of the 32-bit range wraps to the other end, and every result is congruent to the exact value modulo 2^32 |
| KotlinInt.Rem | app/src/main/java/com/example/geoquiz/MainActivity.kt:60 | Int `%` by a positive size gives the Euclidean residue in `[0, size)` for a non-negative dividend, and for a negative dividend the value in `(-size, 0]` that is minus the residue of `-a` (truncation toward zero). Either way the dividend minus the result is a multiple of the size |
| Questions.Size | app/src/main/java/com/example/geoquiz/MainActivity.kt:60 | `questionBank.size` is positive and equals the number of questions |
| Questions.LastIndex | app/src/main/java/com/example/geoquiz/MainActivity.kt:54 | `questionBank.lastIndex` is a valid index and is one less than the size |
| Questions.GeoBankShape | app/src/main/java/com/example/geoquiz/MainActivity.kt:24-31 | The built-in bank has six questions, index 0 and `lastIndex` 5 read questions, 6 and -1 do not, and the answers are true, true, false, false, true, true |
| Questions.Get | app/src/main/java/com/example/geoquiz/MainActivity.kt:42 | `questionBank[currentIndex]` yields the element exactly when the index is in `[0, size)`, and otherwise fails with index out of bounds |
| Navigation.Initial | app/src/main/java/com/example/geoquiz/MainActivity.kt:39 | The starting index 0 satisfies the range invariant and reads the first question |
| Navigation.Next | app/src/main/java/com/example/geoquiz/MainActivity.kt:59-61 | On a valid index, Next yields a valid index: 0 from `lastIndex`, otherwise the successor, which is the successor modulo the size |
| Navigation.Prev | app/src/main/java/com/example/geoquiz/MainActivity.kt:52-58 | On a valid index, Previous yields a valid index: `lastIndex` from 0, otherwise the predecessor, which is the predecessor modulo the size |
| Navigation.NextOutsideRange | app/src/main/java/com/example/geoquiz/MainActivity.kt:60 | Outside the range, Next brings any index from -1 up (below `Int.MAX_VALUE`) into range, but leaves an index below -1 at or under 0, because Kotlin's `%` keeps the dividend's sign |
| Navigation.NextPrevInverse | app/src/main/java/com/example/geoquiz/MainActivity.kt:52-61 | Previous after Next, and Next after Previous, return to the starting valid index |
| Navigation.NextInjective | app/src/main/java/com/example/geoquiz/MainActivity.kt:60 | Next maps distinct valid indices to distinct indices |
| Navigation.NextNAdvances | app/src/main/java/com/example/geoquiz/MainActivity.kt:60 | k presses of Next move a valid index to `(i + k) mod size`, which is valid |
| Navigation.PrevNRetreats | app/src/main/java/com/example/geoquiz/MainActivity.kt:53-57 | k presses of Previous move a valid index to `(i - k) mod size`, which is valid |
| Navigation.NextNotSooner | app/src/main/java/com/example/geoquiz/MainActivity.kt:60 | Between 1 and size-1 presses of Next never return to the start |
| Navigation.PrevNotSooner | app/src/main/java/com/example/geoquiz/MainActivity.kt:53-57 | Between 1 and size-1 presses of Previous never return to the start |
| Navigation.NextCycle | app/src/main/java/com/example/geoquiz/MainActivity.kt:60 | Exactly `size` presses of Next return to the start, and no smaller positive number does |
| Navigation.PrevCycle | app/src/main/java/com/example/geoquiz/MainActivity.kt:53-57 | Exactly `size` presses of Previous return to the start, and no smaller positive number does |
| Navigation.Distance | app/src/main/java/com/example/geoquiz/MainActivity.kt:60 | The number of Next presses from i to j is below the size and is zero exactly when i == j |
| Navigation.NextReachesEvery | app/src/main/java/com/example/geoquiz/MainActivity.kt:60 | From any question, `Distance` presses of Next reach any chosen question, so Next visits the whole bank |
| Navigation.PrevNUndoesNextN | app/src/main/java/com/example/geoquiz/MainActivity.kt:52-61 | k presses of Previous undo k presses of Next |
| Navigation.NextNUndoesPrevN | app/src/main/java/com/example/geoquiz/MainActivity.kt:52-61 | k presses of Next undo k presses of Previous |
| Answers.Evaluate | app/src/main/java/com/example/geoquiz/MainActivity.kt:68 | The verdict is Correct exactly when the submitted answer equals the correct one, and Incorrect exactly when they differ |
| Answers.Message | app/src/main/java/com/example/geoquiz/MainActivity.kt:68 | The text is "Correct!" exactly for a Correct verdict and "Incorrect!" exactly for an Incorrect one |
| Answers.MessageInjective | app/src/main/java/com/example/geoquiz/MainActivity.kt:68 | The two verdicts are announced by different texts |
| Answers.CheckAnswer | app/src/main/java/com/example/geoquiz/MainActivity.kt:67-68 | The message is "Correct!" exactly when the answers agree and "Incorrect!" exactly when they differ |
| Answers.EvaluateTable | app/src/main/java/com/example/geoquiz/MainActivity.kt:67-68 | (true, true) and (false, false) are Correct, and (true, false) and (false, true) are Incorrect |
| Answers.ExactlyOneButtonCorrect | app/src/main/java/com/example/geoquiz/MainActivity.kt:46-51 | For any question exactly one of True and False is judged correct, and flipping both inputs keeps the verdict |
| QuizScreen.Start | app/src/main/java/com/example/geoquiz/MainActivity.kt:39 | A new screen has a valid index and has shown nothing |
| QuizScreen.Restore | app/src/main/java/com/example/geoquiz/MainActivity.kt:39-42 | Composing the screen for a saved index gives a live screen with no messages exactly when the index is in range, and crashes exactly when it is not |
| QuizScreen.Step | app/src/main/java/com/example/geoquiz/MainActivity.kt:42-61 | One press reads the current question first and crashes exactly on an out-of-range index. From a valid index it stays valid. An answer press keeps the index and appends one message that is "Correct!" exactly when the pressed value equals the current question's answer. Previous and Next show nothing and move the index to the predecessor or successor modulo the size |
| QuizScreen.Run | app/src/main/java/com/example/geoquiz/MainActivity.kt:39-61 | Any sequence of presses from a valid screen ends on a valid screen, and a crashed screen stays crashed |
| QuizScreen.SessionNeverCrashes | app/src/main/java/com/example/geoquiz/MainActivity.kt:39-42 | A session that starts at index 0 never reads out of range, whatever is pressed |
| QuizScreen.RunPosition | app/src/main/java/com/example/geoquiz/MainActivity.kt:46-61 | A session ends at `(start + #Next - #Previous) mod size`: answer presses never move the cursor, and the order of moves does not matter |
| QuizScreen.RunToasts | app/src/main/java/com/example/geoquiz/MainActivity.kt:46-51 | A session keeps the messages already shown and adds one per answer press |
| QuizScreen.Play | app/src/main/java/com/example/geoquiz/MainActivity.kt:39-61 | The imperative event loop indexes the bank only in range, ends in the state `Run` predicts at index `#Next - #Previous mod size`, and has shown one message per answer press |
| QuizScreen.GeoBankWalkthrough | app/src/main/java/com/example/geoquiz/MainActivity.kt:24-68 | On the built-in bank, Previous from 0 goes to 5 and Next from 5 goes to 0. True on question 0 shows "Correct!" and True on question 2 shows "Incorrect!" |

## Left out

- `Toast.makeText(...).show()` (MainActivity.kt:69): the notification is a side-effecting Android call. The model records only the message text, appended to the screen's list of shown messages. How long it stays visible is not modelled.
- The Compose UI (`QuizScreen`, `QuizScreenPreview`, layout, icons, spacing; MainActivity.kt:73-162): presentation only. The four button callbacks become the `Event` datatype.
- `rememberSaveable` / `mutableStateOf` (MainActivity.kt:39): framework state retention across rotation. The model keeps the index in an explicit `Screen` value owned by the caller. Restoring a saved index is `Restore`, which composes the screen and crashes at once on an out-of-range index.
- Presses are assumed to be serialised with recomposition. If a Next or Previous press and an answer press were both handled before the next frame, the source would judge the answer against the question captured before the move, while `Step` judges it against the question at the new index. The model does not represent frames.
- QuizScreen.Step: an out-of-range index crashes on the next press rather than at composition. A crash at composition time is modelled only for a restored index, by `Restore`. `Run` from a `Live` screen with an out-of-range index and no presses stays `Live`, though the source would already have crashed at MainActivity.kt:42.
- The commented-out earlier activity (MainActivity.kt:165-352) and QuizViewModel.kt: neither is compiled. Both index questions by string-resource IDs instead of text.
- The `Question` class file is not part of this model. Its two fields are inferred from how MainActivity.kt uses them.
- Navigation.Prev: no contract for an index outside the range. It is computed with Kotlin's wrapping subtraction, but no property is stated there, because every reachable index is in range.
