# paint-on-wordle, modelled in Dafny

paint-on-wordle works Wordle backwards. You give it a target word and one or more
colour patterns (0 = gray, 1 = yellow, 2 = green). For each pattern it finds the
dictionary words that would earn exactly that pattern if guessed against the target.
This project models three parts of it in Dafny 4.11 and proves properties about them:

- `scoring.dfy`, module `Scoring`: the feedback rule `get_feedback`. `GetFeedback` is the
  source's two-pass loop. The first pass marks exact matches green and takes their letters
  out of a tally of the target. The second pass goes left to right: a position turns yellow
  while the tally still holds its letter. The tally (Python's `Counter`) is a
  `multiset<char>`. `GetFeedback` is proved equal to `Feedback`, a closed-form reference
  definition: position i is yellow exactly when the earlier non-green copies of its letter
  are fewer than the copies the exact matches left in the tally. The lemmas state what the
  colouring means.
- `solution.dfy`, module `Solver`: the class `Solution`. Its constructor lower-cases the
  target and stores the pattern rows and the word list. It also has `SetGrid`,
  `FindWord` (first match, or all matches) and `FindSolution` (one lookup per stored row).
  The two lookups are also functions on the word list, `FirstMatch` and `Matches`, with
  their properties proved.
- `cli.dfy`, module `Cli`: the editor state `Grid`. It is a height-by-width matrix of
  tri-state tiles and a cursor that wraps around the edges, with `ToggleCell` and
  `MoveCursor`.

The model follows the code as written. In particular:

- There is no flexible (nearest-match) mode. `find_solution` takes only `find_all`.
- Pattern rows are not validated. A row of the wrong length, or with codes outside
  0..2, simply matches no word. So the lookups have no precondition on patterns.
- The target may have any length, because it is user input. `zip` stops at the shorter
  word, so `Feedback` is defined for every target. Only the guess must have at most 5
  letters, because `result[i]` fails beyond that.

Every `.dfy` file is verified together:
`dafny verify --resource-limit 2000000 --verification-time-limit 0 --warn-contradictory-assumptions scoring.dfy solution.dfy cli.dfy`.

## Model

| member | source | states |
|---|---|---|
| `Scoring.Feedback` | src/solution.py:17-29 | The pattern always has exactly 5 codes, each 0, 1 or 2. Position i is green exactly when guess and target both have a letter at i and those letters are equal. |
| `Scoring.GetFeedback` | src/solution.py:7-29 | The two passes over a guess of at most 5 letters compute exactly the reference colouring `Feedback`, for a target of any length. (Verifying the body also shows that the tally's decrements never go below zero; the contract itself does not state this.) |
| `Scoring.RemainingNonNegative` | src/solution.py:18-23 | After the first pass, each letter's count in the tally lies between 0 and its count in the target. |
| `Scoring.FeedbackSelf` | src/solution.py:20-23 | Any 5-letter word guessed against itself gives (2,2,2,2,2). |
| `Scoring.MarksMatchCommonCount` | src/solution.py:18-28 | For every letter c, the non-gray positions holding c number min(count of c in the guess, count of c in the target). So they never exceed the count in the target. |
| `Scoring.YellowMeansElsewhere` | src/solution.py:24-28 | A yellow position lies inside the guess, is not an exact match, and holds a letter that occurs in the target. |
| `Scoring.GrayPriority` | src/solution.py:24-28 | Left-to-right priority: if a non-green position holding c is gray, every later non-green position holding c is gray too. |
| `Scoring.FeedbackNotSymmetric` | src/solution.py:7-29 | Swapping guess and target can change the feedback: "speed"/"abide" differ from "abide"/"speed". |
| `Solver.Lower` | src/solution.py:33 | The stored target has the input's length. Every upper-case ASCII letter becomes the lower-case letter at the same place in the alphabet, and no upper-case letter remains. Every other character is kept unchanged. |
| `Solver.LowerIdempotent` | src/solution.py:33 | Lower-casing an already lower-cased target changes nothing. |
| `Solver.Matches` | src/solution.py:47-49 | All-matches mode returns an order-preserving subsequence of the word list. Every element's feedback equals the pattern. Each matching word appears exactly as often as in the list, and non-matching words do not appear. An empty list gives []. |
| `Solver.FirstMatch` | src/solution.py:42-46 | Single mode returns nothing exactly when no word's feedback equals the pattern. Otherwise it returns the word at the first index whose feedback equals the pattern. |
| `Solver.FirstMatchAt` | src/solution.py:43-45 | The scan's early return is right: a match at k with no match before it is the first match. |
| `Solver.FirstMatchIsHeadOfMatches` | src/solution.py:41-49 | The two modes agree. Single mode gives the head of the all-matches list, or nothing when that list is empty. |
| `Solver.OwnPatternFindsWord` | src/solution.py:41-49 | Every word of the list is found, in both modes, when the pattern it earns against the target is asked for. |
| `Solver.Solution.constructor` | src/solution.py:32-36 | The stored target is the lower-cased input. The word list is the given one. The patterns are the given grid, or none when no grid is passed. |
| `Solver.Solution.SetGrid` | src/solution.py:38-39 | The stored patterns become the given rows. Nothing else changes. |
| `Solver.Solution.FindWord` | src/solution.py:41-49 | The scan with early return computes `FirstMatch` over the stored target. With `findAll` the result is `Matches`. |
| `Solver.Solution.FindSolution` | src/solution.py:51-53 | One result per stored pattern row, in row order. Row i's result is the lookup of pattern i in the selected mode. |
| `Cli.Cycle` | src/cli.py:21 | A tile's next state is in 0..2 and follows the cycle 0 → 1 → 2 → 0. |
| `Cli.CycleThrice` | src/cli.py:19-21 | Advancing a tile state three times gives back the same state. |
| `Cli.ToggleThrice` | src/cli.py:19-21 | Toggling the same tile three times restores the grid, and every toggle keeps all tiles in 0..2. |
| `Cli.Wrap` | src/cli.py:24-25 | A moved coordinate always lands in 0..size-1, for any integer step, including negative ones. The result differs from x + d by a multiple of size. A move that stays inside the grid is plain addition. A move one step past an edge comes back in from the opposite edge: below 0 it adds size, and at or past size it subtracts size. |
| `Cli.WrapInverse` | src/cli.py:23-25 | Moving by d and then by -d returns a coordinate to where it was. |
| `Cli.Grid.constructor` | src/cli.py:11-16 | The grid has `height` rows of `width` tiles, every tile 0, and the cursor at (0, 0). |
| `Cli.Grid.ToggleCell` | src/cli.py:19-21 | The tile under the cursor becomes `Cycle` of its old state. No other tile changes, and neither cursor coordinate changes. |
| `Cli.Grid.MoveCursor` | src/cli.py:23-25 | Each cursor coordinate moves by its step and wraps modulo the grid's width or height, and the cursor stays on the grid. No tile changes. |

## Left out

- `load_words` (src/solution.py:3-5) reads a file. The word list is a constructor parameter instead. The constructor accepts any list. `FindWord` and `FindSolution` require its words to have at most 5 letters (`Guessable`), because a longer guess makes `get_feedback` fail.
- `Solution.solution` (src/solution.py:36) is set to `None` and never read, so it is not modelled.
- `Solver.Solution.FindWord`: patterns are compared by their contents. In Python, the tuple from `get_feedback` is compared with the pattern object itself, so a list would never match. The only caller, `find_solution`, converts every row to a tuple first.
- `Solver.Lower`: only ASCII letters are lower-cased. Python's `str.lower` also lower-cases non-ASCII letters.
- `Grid.draw`, `print_words`, `main` and `on_press` (src/cli.py:27-99) do terminal rendering and keyboard input. The `_drawn_once` flag exists only for drawing.
- src/main.py and main.py parse arguments, print results and exit the process.
- The three-argument calls `find_solution(grid, find_all, flexible)` (src/cli.py:88, src/main.py:19) match no method of `Solution`. No flexible matching exists to model.
- `Cli.Grid.ToggleCell` and `Cli.Grid.MoveCursor` require a non-empty grid. With zero width or height, Python fails on the index or on the modulo.
