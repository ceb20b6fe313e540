# Gomoku rules engine and move parser, in Dafny

This project models two parts of a small Gomoku program written in Rust.

- **The board and rules engine** (`src/game.rs`) is in `game.dfy`, module `Game`. The board has 15×15 cells in row-major order. A cell holds 0 when empty, otherwise the number of the turn that filled it, and the parity of that number names the side that owns it.
  - `can_move` refuses an occupied cell. On turn 3 it also refuses the 7×7 centre zone.
  - `make_move` places a stone and classifies the move as `Win`, `Tie`, `Normal` or `Fail`.
  - `check_victory` totals the two opposite `count_ray` rays on each of the four axes.
  - `check_tie` compares the turn with 225.

  The read-only queries are functions of a `Position` value (turn and cells). The class `Game.Game` holds the mutable state: the `turn` field and an `array<int>` board. `MakeMove` is a method on it that writes one board slot and may increment `turn`.
- **The coordinate parser and command dispatch** of the text interface is modelled twice, as in the source. Module `Io` in `io.dfy` is the copy in `src/main.rs`. Module `Cli` in `cli.dfy` is the copy in `src/cli.rs`. A line is trimmed. `exit`, `quit` and `q` end the session. Anything else is parsed as a column letter `A`..`O` followed by a row number 1..15, giving zero-based `(x, y)`.
- `strings.dfy`, module `Strings`, models the parts of Rust's string library the parser depends on:
  - `char::is_whitespace`, which is the full Unicode White_Space set;
  - `str::trim`;
  - `str::len`, which counts UTF-8 bytes;
  - `str::parse::<u32>`: an optional `+`, then one or more ASCII digits, with a value of at most 4294967295;
  - decimal formatting of a number, used to build the board labels.

What is proved, in outline:
- `count_ray` is exactly the length of the run of the mover's stones along a ray.
- `check_victory` holds exactly when five of the mover's stones lie in a row through the placed cell.
- `make_move` changes only the chosen cell, only to the turn number, and only when the move is legal. The turn advances exactly on `Normal`.
- In every game started by `Game::new`, a `Tie` leaves no empty cell, even when play went on after a `Win`.
- The parser returns only on-board coordinates. It inverts the column letter and row number of every cell, typed without padding.
- The two parser copies agree on every input.

Notes on the code:
- `can_move` applies the turn-3 centre ban on every game (src/game.rs:32).
- The doc-comment examples of `parse_pos` compare against `Some((0, 0))`, but the function returns a `Command`. The model states the examples as `Move(0, 0)` and `Invalid`.
- The board display prints row numbers right-aligned in two columns (`{:2}`, src/main.rs:56), so rows 1 to 9 appear as ` 1` to ` 9`. The labels the parser inverts are the unpadded ones a player types: `A1`, not `A 1`, which is refused.

## Model

| member | source | states |
|---|---|---|
| `Game.Index` | src/game.rs:27 | The row-major index `x + y*SIZE` of an on-board cell lies in `[0, 225)`. |
| `Game.IndexBijective` | src/game.rs:27 | Two on-board cells share an index only if they are the same cell, and every index in `[0, 225)` is the index of some on-board cell. |
| `Game.InBounds` | src/game.rs:86-88 | No contract of its own: `in_bounds`, column and row both in `[0, SIZE)`. It is the precondition of `Index`, `Piece` and `CanMove`, and `CountRay` returns 0 outside it. |
| `Game.SameParity` | src/game.rs:90-92 | No contract of its own: `same_parity`, the sum of the two numbers is even. `Owned` uses it to tell the mover's stones, and `CountRayOwned`/`CountRayStops` state what it selects. |
| `Game.Piece` | src/game.rs:26-28 | No contract of its own: the cell at the row-major index. `Index` states that index is in range and `IndexBijective` that each cell has its own. |
| `Game.CanMove` | src/game.rs:30-36 | On turn 3, every cell with column and row in 4..10 is refused. Otherwise a move is legal exactly when the cell at `x + 15*y` holds 0. |
| `Game.CountRay` | src/game.rs:65-74 | The count lies in `[0, SIZE]`. It is 0 off the board. On the board it is at most the number of cells left before the edge in the stepping direction, and that measure also proves the recursion ends. |
| `Game.CountRayOwned` | src/game.rs:65-74 | Every one of the first `CountRay` cells along the ray is on the board, non-empty and of the mover's parity. |
| `Game.CountRayStops` | src/game.rs:65-74 | The cell just after the counted ones is off the board, empty, or of the other side's parity. |
| `Game.CountRayIsRun` | src/game.rs:65-74 | Together: `CountRay` is exactly the length of the run of the mover's stones starting at `(x, y)`. |
| `Game.RayAtLeast` | src/game.rs:65-74 | If the first `n` cells of a ray belong to the mover, the ray counts at least `n`. |
| `Game.CheckVictory` | src/game.rs:58-63 | No contract of its own: the four opposite-ray sums, any above 5. `VictoryIsFiveInRow` states what it decides. |
| `Game.AxisVictorySound` | src/game.rs:58-63 | If two opposite rays from `(x, y)` sum to more than 5, then five stones of the mover lie in a row through `(x, y)` on that axis. |
| `Game.AxisVictoryComplete` | src/game.rs:58-63 | If five of the mover's stones lie in a row through `(x, y)` on an axis, the two opposite rays there sum to more than 5. |
| `Game.AxisVictory` | src/game.rs:58-63 | On one axis, the sum of the two opposite rays exceeds 5 if and only if a five-in-a-row passes through `(x, y)`. This holds because the cell itself is counted by both rays. |
| `Game.VictoryIsFiveInRow` | src/game.rs:58-63 | `check_victory` holds if and only if a five-in-a-row passes through `(x, y)` on one of the four axes. |
| `Game.CheckTie` | src/game.rs:54-56 | No contract of its own: the turn equals 225. `Game.MakeMove` states that `Tie` is returned exactly for a legal, non-winning move on that turn, and that in any game started by `Game::new` it leaves no empty cell. |
| `Game.Occupied` | src/game.rs:54-56 | The number of filled cells never exceeds the number of cells. |
| `Game.OccupiedFill` | src/game.rs:43 | Writing a non-zero turn into an empty cell raises the filled-cell count by exactly one. |
| `Game.OccupiedFull` | src/game.rs:54-56 | The filled-cell count equals the board size exactly when every cell is non-zero. |
| `Game.OccupiedEmpty` | src/game.rs:22 | An all-zero board has no filled cell. |
| `Game.Game.constructor` | src/game.rs:19-24 | `Game::new` gives turn 1, an all-zero fresh 225-cell board, and one filled cell per completed turn (zero). |
| `Game.Game.MakeMove` | src/game.rs:39-52 | An illegal move returns `Fail` and leaves turn and board unchanged. A legal move sets exactly the cell at `x + y*SIZE` to the old turn. `Win` is returned exactly when that stone completes five in a row for the old turn's side. `Tie` is returned exactly when the move is legal, not a win, and the old turn is 225. The turn rises by one exactly on `Normal`. Filled cells never change. Every move keeps the invariant `Accounted` (at least one filled cell per completed turn), which `Game::new` establishes. Under it a `Tie` leaves no empty cell. |
| `Game.Game.Clone` | src/game.rs:77-84 | The copy is a fresh object with a fresh board array, the same turn and the same cells. |
| `Strings.IsWhitespace` | src/main.rs:41 | No contract of its own: the 25 code points with the Unicode White_Space property, which `char::is_whitespace` tests and `str::trim` strips. `TrimPadded` shows that exactly these are stripped. |
| `Strings.TrimStart` | src/main.rs:41 | The result is a suffix of the input. Everything dropped is whitespace, and the result does not start with whitespace. |
| `Strings.TrimEnd` | src/main.rs:41 | The result is a prefix of the input. Everything dropped is whitespace, and the result does not end with whitespace. |
| `Strings.Trim` | src/main.rs:41 | No contract of its own: `TrimStart` then `TrimEnd`. `TrimPadded` and `TrimIdempotent` state what it computes. |
| `Strings.TrimPadded` | src/main.rs:41 | A string with no whitespace at its ends, padded with any whitespace on both sides, trims back to itself. |
| `Strings.TrimIdempotent` | src/main.rs:41 | A trimmed string has no whitespace at either end, and trimming it again changes nothing. |
| `Strings.Utf8Width` | src/main.rs:82 | A character takes 1 to 4 UTF-8 bytes, and exactly 1 when it is ASCII. |
| `Strings.Utf8Len` | src/main.rs:82 | The byte length is between the character count and four times it, and equals the character count for ASCII text. |
| `Strings.ParseU32` | src/main.rs:109 | An accepted value never exceeds `u32::MAX`. Its partners are `ParseDecimal` (printing then parsing), `ParseU32Form` (the converse) and `ParseU32Overflow` and `ParseU32Refuses` (what is refused). |
| `Strings.ParseU32Overflow` | src/main.rs:109 | A digit string whose value exceeds `u32::MAX` is refused, with or without a leading `+`. |
| `Strings.DecimalOfCanonical` | src/main.rs:109 | A non-empty digit string with no redundant leading zero is exactly the decimal rendering of its value. |
| `Strings.StripZeros` | src/main.rs:109 | Every non-empty digit string is a run of zeros followed by a digit string with no redundant leading zero, and both have the same value. |
| `Strings.ParseU32Form` | src/main.rs:109 | Every accepted string is an optional `+`, then zeros, then the decimal rendering of the parsed value. This is the converse of `ParseDecimal`. |
| `Strings.PrefixValue` | src/main.rs:109 | No prefix of a digit string has a larger value than the whole string, so overflow in any prefix means overflow at the end. |
| `Strings.ParseU32Refuses` | src/main.rs:109-111 | The empty string, a lone `+`, anything starting with `-`, and any string with a non-digit after its first character do not parse. |
| `Strings.Decimal` | src/main.rs:56 | The decimal rendering is a non-empty string of digits whose value is the number. It has no leading zero unless the number is 0. |
| `Strings.ParseDecimal` | src/main.rs:109 | The decimal rendering of any `u32` value parses back to that value, with or without a leading `+`. |
| `Strings.LeadingZeros` | src/main.rs:109 | A leading zero does not change the value of a digit string. |
| `Io.ParseLetter` | src/main.rs:97-105 | A letter is accepted exactly when it is `A`..`O`, and the result is its distance from `A`, which is below `SIZE`. |
| `Io.ParseNumber` | src/main.rs:108-113 | The result is `Some(n - 1)` exactly when the string parses as a `u32` `n` with `1 <= n <= SIZE`. The result is below `SIZE`. Zero and larger numbers give `None`. |
| `Io.ParsePos` | src/main.rs:81-94 | A move results exactly when the input has at least two characters, its first is a column letter and the rest is a row number. The move's coordinates are those two parses, both below `SIZE`. `parse_pos` never yields `Exit`. |
| `Io.ReadMove` | src/main.rs:41-45 | The trimmed line gives `Exit` exactly when it is `exit`, `quit` or `q`. Every other line gives `parse_pos` of the trimmed line. |
| `Io.ColumnLabel` | src/main.rs:52 | The column label of x is a letter in `A`..`O` at distance x from `A`. |
| `Io.Label` | src/main.rs:52-56 | No contract of its own: the column letter followed by the unpadded decimal of y+1. The display pads that number to two columns. `Io.LabelRoundTrip` states that it parses back to its cell. |
| `Io.LabelRoundTrip` | src/main.rs:52-56 | For every on-board cell, the column letter `A`+x shown by the display followed by the row number y+1 parses back to `Move(x, y)`. |
| `Io.MoveHasLabels` | src/main.rs:81-113 | Every input that parses to `Move(x, y)` is the column letter of x, then an optional `+`, then zeros, then the decimal of y+1. This is the converse of `LabelRoundTrip`. |
| `Io.ParsePosAccepts` | src/main.rs:74-75 | `A1` gives `Move(0, 0)` and `C10` gives `Move(2, 9)`. |
| `Io.ParsePosRefuses` | src/main.rs:76-79 | `Z99`, `A 1`, `A0` and `a1` give `Invalid`. |
| `Io.ParsePosSignAndZeros` | src/main.rs:108-113 | `A+1` and `A01` give `Move(0, 0)`, as `u32` parsing accepts a `+` and leading zeros. |
| `Io.ParsePosOutOfRange` | src/main.rs:97-113 | `A-1`, `P1` and `A16` give `Invalid`. |
| `Io.ShortInputRejected` | src/main.rs:82-84 | Any input with fewer than two characters gives `Invalid`, including a single non-ASCII character whose byte length passes the length test. |
| `Io.ReadMovePadded` | src/main.rs:41-45 | Whitespace around a line does not change its command. An exit word padded with whitespace is `Exit`. Any other unpadded text padded with whitespace parses as itself. |
| `Cli.ParseLetter` | src/cli.rs:47-55 | A letter is accepted exactly when it is `A`..`O`, and the result is its distance from `A`, which is below `SIZE`. |
| `Cli.ParseNumber` | src/cli.rs:57-62 | The result is `Some(n - 1)` exactly when the string parses as a `u32` `n` with `1 <= n <= SIZE`. Zero and out-of-range values give `None`. |
| `Cli.ParsePos` | src/cli.rs:32-45 | A move results exactly when the input has at least two characters, a column letter and a row number. Both coordinates are below `SIZE`. It never yields `Exit`. |
| `Cli.ReadMove` | src/cli.rs:17-21 | The trimmed line gives `Exit` exactly when it is `exit`, `quit` or `q`. Otherwise it gives `parse_pos` of the trimmed line. |
| `Cli.AgreesWithMain` | src/cli.rs:32-62 | The copies of `parse_letter`, `parse_number`, `parse_pos` and the dispatch in `src/cli.rs` compute the same results as those in `src/main.rs` on every input. |
| `Cli.ParsePosExamples` | src/cli.rs:24-31 | `A1` gives `Move(0, 0)` and `C10` gives `Move(2, 9)`. `Z99`, `A 1`, `A0` and `a1` give `Invalid`. |
| `Cli.ShortInputRejected` | src/cli.rs:33-35 | Any input with fewer than two characters gives `Invalid`. |
| `Cli.LabelRoundTrip` | src/cli.rs:32-45 | A column letter and row number shown for an on-board cell parse back to that cell. |

## Left out

- The search engine of `src/ai.rs` is not modelled. It is a stub: the UCT heuristic is `f64` arithmetic with `ln` and `sqrt`, and `select_child` throws away the result of its fold. There is no expansion, rollout or move driver in the code, and a rollout would need randomness.
- Terminal I/O is not modelled: the `main` loop, `read_line`, the prompts and the printed messages. `read_move` is modelled from the line it has read, as `ReadMove(line)`.
- `display_game` is not modelled. It reads a 2-D `game.board` of `Player` values that the current `src/game.rs` does not define. Only its labels are used: the column letter `A`+n and the row number `index + 1`, in `Io.Label`. `Io.Label` renders the row number without the two-column padding of `{:2}`.
- The arms of the `main` loop that call `can_move` and `make_move` are not modelled. They pass `u32` coordinates to functions taking `i32`, and their arms have different types. This code is left over from an older version.
- `Game.Game.MakeMove` and `Game.CanMove` require `0 <= x, y < 15`. The source does not check bounds in `piece` and `can_move`: any off-board pair whose `x + 15*y` falls in `[0, 225)` lands on another cell, for example `(15, 0)` on `(0, 1)` and `(20, -1)` on `(5, 0)`; the rest panic. Those cases are not modelled.
- Moves after a `Win` or a `Tie` are not guarded in the source, and the model does not add a lock. `MakeMove` behaves the same whatever came before. Its invariant `Accounted` holds through such moves too, because a `Win` or `Tie` fills a cell without advancing the turn.
- Integer widths: the source stores `turn` and the cells as `i32`. The model uses unbounded integers. `turn` only grows on a `Normal` move, and each such move fills an empty cell, so it never comes near the `i32` limit. Coordinates parse as `u32` and are then bounded by 15. `parse_letter` adds the `i32` constant `game::SIZE` to a `u32` (src/main.rs:100), and `parse_number` compares a `u32` with it (src/main.rs:110). Rust's type checker rejects both mixed-width expressions. The model reads them as the intended comparisons against `SIZE = 15` on unbounded integers, in both `src/main.rs` and the copies in `src/cli.rs` (lines 50 and 59).
- `Strings.ParseU32` checks the final value against `u32::MAX` once, while the library checks after every digit. `Strings.PrefixValue` proves that no prefix has a larger value than the whole string, so both checks refuse the same inputs. The digit-by-digit loop itself is not modelled.
- Character semantics: a Rust `char` is a Unicode scalar value, and so is a Dafny `char`. `str::len` is modelled as the UTF-8 byte count. No Unicode normalisation or case folding is applied, and the source applies none.
- The `Command` enum is declared twice in the source, identically, in `src/main.rs` and `src/cli.rs`. The model declares it once, as `Io.Command`. The variant `Command::None` is named `Invalid` so that it does not clash with `Option.None`.
