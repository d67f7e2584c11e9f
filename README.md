# A verified model of a terminal falling-block game's rules engine

The game is a terminal Tetris clone. Its rules engine is built from a few parts:

- the seven tetrominoes and how they turn;
- a small language for writing piece sequences;
- the playing field;
- the wall-kick tables;
- the spin classifier;
- the attack table;
- the piece randomizer (the "bag");
- a fixed-size undo history;
- the game session, which combines all of the above.

This project models those parts in Dafny and proves properties of the model. There is one module per source file:

| file | module | models |
|---|---|---|
| `tetromino.dfy` | `Tetromino` | `include/rules/tetromino.hpp` and the shape constants of `src/rules/tetromino.cpp` |
| `sequence.dfy` | `PieceSequence` | the sequence language of `src/rules/tetromino.cpp`: parser, matcher, generator |
| `random.dfy` | `RandomChoice` | the random engine, as a stream of draws |
| `field.dfy` | `Playfield` | `include/rules/field.hpp` |
| `kick_table.dfy` | `KickTable` | `general_get` of `include/rules/kick_table.hpp` |
| `spin.dfy` | `Spin` | `include/rules/spin.hpp` |
| `attack.dfy` | `AttackTable` | `include/rules/attack_table.hpp` |
| `bag.dfy` | `Bags` | `include/rules/bag.hpp` |
| `buffer.dfy` | `History` | `include/util/buffer.hpp` |
| `game.dfy` | `Session` | the non-drawing rules of `include/game.hpp` outside puzzle mode |

The model follows the source's own form.

- **Values become datatypes.** A tetromino is copied by value everywhere: into the queue, the hold slot and the spin information. So it is a datatype, `Mino`. Its in-place rotations and its collision-box scan are methods with loops that return the rewritten value. Each method is proved equal to a specification function: `RotCW`, `RotCCW`, `Rot180`, `IsBoxOf`.
- **Updated objects become classes.** Objects whose fields the source updates are classes:
  - the field: `Playfield.Field`, whose row vector is a `seq` field;
  - the bag: `Bags.Bag`;
  - the undo history: `History.Buffer`, over an `array`;
  - the session: `Session.Game`.
- **Methods are proved against value-level rules.** Each method is proved against a rule stated on values:
  - the field methods against views of the board (`Playfield.Stamp`, `Playfield.Unfull`);
  - the bag against the stream of kinds it will deal (`Bags.Upcoming`);
  - the buffer against its cursor state (`History.AfterPush` and the others);
  - the session against `Session.Collides`, `Session.Fall`, `Session.FirstFree`, `Session.SpawnRow`, `Session.Landed` and `Session.Deal`.
- **Randomness is a parameter.** It is a stream of draws, `RandomChoice.Entropy`. Every shuffle or sample the real engine can produce comes from some stream (`RandomChoice.ArrangeReachable`). So the properties proved for all streams hold for every random outcome.
- **Kick data is a parameter.** The kick-offset tables are given as a `KickTable.KickData` value.

Rows count upward from the bottom of the field. A piece's anchor is the top-left of its grid: shape row `i`, column `j` lands on field row `y - i`, column `x + j`.

## Model

| member | source | states |
|---|---|---|
| Tetromino.Steps | include/rules/tetromino.hpp:15-17 | cw, 180 and ccw stand for 1, 2 and 3 clockwise quarter turns |
| Tetromino.KindsAreTheRealKinds | include/rules/tetromino.hpp:19-21 | the seven kinds I J L O S T Z are exactly the kinds other than the INVALID sentinel |
| Tetromino.IsBoxOf | include/rules/tetromino.hpp:87-101 | definition: the box bounds every occupied cell and touches one on each side; an empty grid has left = up = size and right = down = 0 |
| Tetromino.BoxUnique | include/rules/tetromino.hpp:87-101 | a grid has only one tight collision box |
| Tetromino.ShapeIsWellFormed | src/rules/tetromino.cpp:3-52 | every shape constant is a square grid; its box is its tight box; it has an occupied cell exactly when it is not INVALID |
| Tetromino.Shape | include/rules/tetromino.hpp:36-41 | a canonical piece has the given kind, direction 0 and a size equal to its number of grid rows |
| Tetromino.ShapePlayable | src/rules/tetromino.cpp:3-52 | every canonical piece is well formed; it is playable exactly when it is not INVALID |
| Tetromino.ShapeFits | src/rules/tetromino.cpp:3-52 | every canonical piece is at most 4 wide and meets what the game assumes of a piece |
| Tetromino.RotCW | include/rules/tetromino.hpp:57-65 | definition: a clockwise quarter turn moves cell (i, j) to (j, n-1-i) |
| Tetromino.RotCCW | include/rules/tetromino.hpp:67-75 | definition: a counter-clockwise quarter turn moves cell (i, j) to (n-1-j, i) |
| Tetromino.Rot180 | include/rules/tetromino.hpp:77-85 | definition: a half turn moves cell (i, j) to (n-1-i, n-1-j) |
| Tetromino.RotationsAreSquare | include/rules/tetromino.hpp:57-85 | each of the three turns keeps the grid square and of the same size |
| Tetromino.CCWUndoesCW | include/rules/tetromino.hpp:57-75 | a counter-clockwise turn undoes a clockwise one, and the other way round |
| Tetromino.HalfIsTwoCW | include/rules/tetromino.hpp:77-85 | a half turn equals two clockwise turns |
| Tetromino.CCWIsThreeCW | include/rules/tetromino.hpp:57-75 | a counter-clockwise turn equals three clockwise turns |
| Tetromino.CWPowAdd | include/rules/tetromino.hpp:57-65 | p clockwise turns followed by q more are p + q turns |
| Tetromino.FourCWIsIdentity | include/rules/tetromino.hpp:57-65 | four clockwise turns give back the grid exactly |
| Tetromino.CWPowMod | include/rules/tetromino.hpp:57-65 | k clockwise turns equal k mod 4 turns, so only the direction modulo 4 matters |
| Tetromino.RotGridIsCWPow | include/rules/tetromino.hpp:104-110 | each requested rotation is its enum value in clockwise quarter turns |
| Tetromino.CWKeepsCellCount | include/rules/tetromino.hpp:57-65 | a clockwise turn permutes the cells, so it keeps the number of occupied cells |
| Tetromino.HalfKeepsCellCount | include/rules/tetromino.hpp:77-85 | a half turn keeps the number of occupied cells |
| Tetromino.CCWKeepsCellCount | include/rules/tetromino.hpp:67-75 | a counter-clockwise turn keeps the number of occupied cells |
| Tetromino.RotationKeepsCellCount | include/rules/tetromino.hpp:104-110 | every requested rotation keeps the number of occupied cells |
| Tetromino.RotationKeepsHasCell | include/rules/tetromino.hpp:57-85 | a grid has an occupied cell after a turn exactly when it had one before |
| Tetromino.RotateCWCells | include/rules/tetromino.hpp:57-65 | `_M_rotate_cw` moves cell (i, j) of the copy to (j, n-1-i), which gives the clockwise grid |
| Tetromino.RotateCCWCells | include/rules/tetromino.hpp:67-75 | `_M_rotate_ccw` moves cell (i, j) to (n-1-j, i), which gives the counter-clockwise grid |
| Tetromino.Rotate180Cells | include/rules/tetromino.hpp:77-85 | `_M_rotate_180` moves cell (i, j) to (n-1-i, n-1-j), which gives the half-turned grid |
| Tetromino.CalculateCollision | include/rules/tetromino.hpp:87-101 | the box is the min and max occupied column and row; an empty grid gives left = up = size and right = down = 0 |
| Tetromino.Rotate | include/rules/tetromino.hpp:104-115 | `rotate` turns the grid, sets direction to (direction + r) mod 4, recomputes the box and keeps kind and size; a playable piece stays playable |
| Tetromino.RotationUnique | include/rules/tetromino.hpp:104-115 | a rotation has a single outcome |
| Tetromino.RotationTurns | include/rules/tetromino.hpp:112 | every rotation changes the direction, so the turned piece differs from the old one |
| Tetromino.SetDirection | include/rules/tetromino.hpp:117-121 | `set_direction(d)` ends at direction d mod 4 after (4 + d - direction) mod 4 clockwise turns; when d is already the direction the piece is untouched |
| Tetromino.SetDirectionRoundTrip | include/rules/tetromino.hpp:117-121 | turning to any direction and back to the original one restores the grid bit for bit |
| Tetromino.ToChar | include/rules/tetromino.hpp:141-152 | `operator char` gives one of IJLOSTZ for a real piece and '?' exactly for INVALID |
| Tetromino.LetterKind | include/rules/tetromino.hpp:163-174 | a character names a kind exactly when its upper case is one of IJLOSTZ, and that kind is a real one |
| Tetromino.FromChar | include/rules/tetromino.hpp:163-174 | `from_char` is case-insensitive, gives none for any other character, and gives the canonical piece whose letter is the upper-cased input |
| Tetromino.FromCharOfToChar | include/rules/tetromino.hpp:141-174 | reading back the letter of a canonical real piece gives that piece |
| Tetromino.Same | include/rules/tetromino.hpp:136-139 | `==` compares kinds only, so two pieces are equal exactly when their letters are |
| PieceSequence.PieceLetterIsAlpha | src/rules/tetromino.cpp:161-167 | every piece letter takes the letter branch of the parser |
| PieceSequence.Digits | src/rules/tetromino.cpp:142-146 | the digit loop stops at the first non-digit or at the end, and its count stays below 2^32 |
| PieceSequence.DigitsValue | src/rules/tetromino.cpp:142-146 | the `pN` count is the decimal value of the digits, wrapped to 32 bits |
| PieceSequence.WrittenKinds | src/rules/tetromino.cpp:106-113 | the kinds named by a text, in order, are all real kinds |
| PieceSequence.WrittenKindsAppend | src/rules/tetromino.cpp:93-116 | the kinds named by two texts put together are those of the first, then those of the second |
| PieceSequence.Letters | src/rules/tetromino.cpp:93-116 | a bracket body that is read ends at a `]`, and its members are the earlier ones followed by the kinds of the letters written before that `]`, in order, separators skipped |
| PieceSequence.LettersChars | src/rules/tetromino.cpp:99-111 | everything a bracket body reads before its `]` is a separator or a piece letter; the loop fails on any other character |
| PieceSequence.LettersCloses | src/rules/tetromino.cpp:93-116 | conversely, a body that reaches a `]` through separators and piece letters only is read up to that `]`, with exactly the kinds written |
| PieceSequence.Suffix | src/rules/tetromino.cpp:134-158 | `!` gives a count of the number of letters written and consumes one character; no suffix gives a count of 1 and consumes nothing; `pN` gives N, the digits' decimal value modulo 2^32, and fails when no digit follows or N is 0 or above the number of letters; a count is always between 1 and that number |
| PieceSequence.SuffixChars | src/rules/tetromino.cpp:134-158 | a count suffix reads only `p`, `!` and digits |
| PieceSequence.ParseBracket | src/rules/tetromino.cpp:85-123 | a bracketed set that parses is well formed, keeps the exclusion flag, and its members are the kinds written up to the `]`; an empty body fails |
| PieceSequence.ParseSet | src/rules/tetromino.cpp:82-160 | a `[` set is an exclusion exactly when `^` follows, and its members are the kinds written in it; a `*` set is all seven kinds and not an exclusion |
| PieceSequence.ParseSetAllowed | src/rules/tetromino.cpp:82-160 | every character a set token reads is one a spec may hold |
| PieceSequence.ParseStar | src/rules/tetromino.cpp:124-158 | `*` is the set of all seven kinds, not an exclusion, with its count from the suffix |
| PieceSequence.ParseFrom | src/rules/tetromino.cpp:77-182 | a valid tail ends with at least one token, all well formed; at the end of the text, no token at all is invalid (each top-level step is stated by `SeparatorSkipped`, `SetStep` and `SingleStep`) |
| PieceSequence.ParseFromKeeps | src/rules/tetromino.cpp:160-171 | the tokens parsed so far stay at the front, in order: the parser only appends |
| PieceSequence.ParseFromAllowed | src/rules/tetromino.cpp:77-177 | a tail that parses holds only characters a spec may hold; any other character makes it invalid |
| PieceSequence.Parse | src/rules/tetromino.cpp:74-183 | a valid spec has at least one well-formed token; any character outside the alphabet makes it invalid (separators are ruled by `SkipSeparators`, `SeparatorsOnly` and `JoinSpecs`) |
| PieceSequence.SeparatorSkipped | src/rules/tetromino.cpp:78-81 | a space or comma at the top level is skipped: parsing from it is parsing from the next character, with the same tokens so far |
| PieceSequence.SkipSeparators | src/rules/tetromino.cpp:77-81 | a run of spaces and commas at the top level is skipped: parsing from its start is parsing from its end |
| PieceSequence.SetStep | src/rules/tetromino.cpp:82-160 | a `[` or `*` set token that is read is appended to the tokens, and parsing goes on right after it |
| PieceSequence.SingleStep | src/rules/tetromino.cpp:161-172 | a piece letter at the top level, in either case, appends the single token of its upper-case letter, and parsing goes on at the next character |
| PieceSequence.SeparatorsOnly | src/rules/tetromino.cpp:77-182 | a spec made only of spaces and commas names no token, so it is invalid |
| PieceSequence.ParseFromAcc | src/rules/tetromino.cpp:160-171 | tokens parsed earlier stay in front of the tokens a tail parses to, unchanged |
| PieceSequence.ParseFromExtend | src/rules/tetromino.cpp:77-182 | a tail that parses, followed by a separator and more text, parses in the longer text to the same tokens, and the parse goes on at the end of the tail |
| PieceSequence.ParseSetExtend | src/rules/tetromino.cpp:82-160 | a set token that is read is read the same, ending at the same place, when a separator follows the text |
| PieceSequence.BracketExtend | src/rules/tetromino.cpp:85-158 | a bracketed set that is read is read the same when a separator follows the text |
| PieceSequence.LettersExtend | src/rules/tetromino.cpp:93-116 | a bracket body closed by its `]` is read the same whatever follows the text |
| PieceSequence.SuffixExtend | src/rules/tetromino.cpp:134-158 | a count suffix that is read is read the same when a separator follows the text |
| PieceSequence.DigitsExtend | src/rules/tetromino.cpp:139-146 | the digits of a count are read the same when a non-digit follows the text |
| PieceSequence.ParseFromAgree | src/rules/tetromino.cpp:77-182 | parsing from a position depends only on the text from that position on: two texts with equal tails there give the same result |
| PieceSequence.ParseSetAgree | src/rules/tetromino.cpp:82-160 | a set token reads the same from equal tails: the same token, ending the same distance further on |
| PieceSequence.BracketAgree | src/rules/tetromino.cpp:85-158 | a bracketed set reads the same from equal tails, ending the same distance further on |
| PieceSequence.ClosedBracketAgree | src/rules/tetromino.cpp:85-158 | two bracket bodies read alike, with equal text after their `]`, give the same set token, ending the same distance further on |
| PieceSequence.BracketEmpty | src/rules/tetromino.cpp:93-123 | a bracket never closed, or closed with no letter inside, is invalid |
| PieceSequence.LettersAgree | src/rules/tetromino.cpp:93-116 | a bracket body reads the same kinds from equal tails and stops at the same distance |
| PieceSequence.SuffixAgree | src/rules/tetromino.cpp:134-158 | a count suffix reads the same count from equal tails, ending the same distance further on |
| PieceSequence.DigitsAgree | src/rules/tetromino.cpp:139-146 | the digits of a count give the same 32-bit value from equal tails and end the same distance further on |
| PieceSequence.JoinSpecs | src/rules/tetromino.cpp:74-183 | two valid specs joined by a space or comma make a valid spec whose tokens are those of the first followed by those of the second |
| PieceSequence.JoinSingles | src/rules/tetromino.cpp:74-183 | two one-token specs joined by a separator make the spec of those two tokens, in order |
| PieceSequence.ExclusionExample | src/rules/tetromino.cpp:85-157 | `[^O]!` is one exclusion token over O with count 1, the number of letters written |
| PieceSequence.StarExample | src/rules/tetromino.cpp:124-158 | `*` is one token drawing one piece from all seven kinds |
| PieceSequence.LowerCaseExample | src/rules/tetromino.cpp:161-172 | `i` is the single letter token `I` |
| PieceSequence.CountExample | src/rules/tetromino.cpp:134-153 | `[SZ]p2` is one token drawing 2 pieces from S and Z |
| PieceSequence.EmptyExample | src/rules/tetromino.cpp:179-182 | the empty spec is invalid |
| PieceSequence.EmptySetExample | src/rules/tetromino.cpp:120-123 | `[]` and `[^]` are invalid |
| PieceSequence.UnclosedExample | src/rules/tetromino.cpp:94-97 | `[IJ`, a set that is never closed, is invalid |
| PieceSequence.UnknownLetterExample | src/rules/tetromino.cpp:161-167 | a stray `p`, and `Xp2`, are invalid: the letter names no piece |
| PieceSequence.CountRangeExample | src/rules/tetromino.cpp:148-151 | `[IJ]p3` and `[IJ]p0` are invalid: the count is not between 1 and the number of letters |
| PieceSequence.SeparatedLettersExample | src/rules/tetromino.cpp:77-172 | ` i,o` is the two single tokens I and O: the leading space and the comma between them are skipped |
| PieceSequence.JoinedSetsExample | src/rules/tetromino.cpp:74-183 | `[^O]!,*` is the exclusion token over O followed by the token drawing one of all seven kinds |
| PieceSequence.BlankSpecExample | src/rules/tetromino.cpp:77-182 | ` , ` is invalid: separators alone name no token |
| PieceSequence.ScanLetters | src/rules/tetromino.cpp:93-116 | the bracket loop succeeds exactly when `Letters` does, and collects the kinds written, up to the same `]` |
| PieceSequence.ScanSuffix | src/rules/tetromino.cpp:134-158 | the suffix code builds the count `Suffix` gives for `!`, no suffix and `pN`, and fails in the same cases |
| PieceSequence.ScanBracket | src/rules/tetromino.cpp:85-123 | the bracket code succeeds exactly when `ParseBracket` does, with the written kinds as members |
| PieceSequence.ScanSet | src/rules/tetromino.cpp:82-160 | the set code succeeds exactly when `ParseSet` does, with the same token |
| PieceSequence.Scan | src/rules/tetromino.cpp:74-183 | `seqinfo(s)` is valid exactly when `Parse` succeeds, and then its tokens are those of `Parse` |
| PieceSequence.KindIndex | src/rules/tetromino.cpp:256-265 | a real kind has a slot below 7 of the `__chk` table, and that slot names it |
| PieceSequence.Chunk | src/rules/tetromino.cpp:252-266 | definition: a run that a set token accepts has each piece in the set (outside it, for an exclusion) and no kind twice |
| PieceSequence.MatchFrom | src/rules/tetromino.cpp:242-278 | definition: a letter token takes one piece of its kind, a set token a run of `count` pieces that `Chunk` accepts, and nothing may be left over |
| PieceSequence.MatchHasWidth | src/rules/tetromino.cpp:242-278 | a matching sequence is exactly as long as the tokens describe: one per letter, `count` per set |
| PieceSequence.ChunkStep | src/rules/tetromino.cpp:259-265 | one more piece keeps a set token's run valid exactly when it is allowed by the set (or its complement) and not yet seen |
| PieceSequence.MatchChunk | src/rules/tetromino.cpp:252-266 | the loop over one set token accepts exactly the runs whose pieces are allowed and of distinct kinds |
| PieceSequence.Takes | src/rules/tetromino.cpp:248-255 | a token never takes more pieces than are left |
| PieceSequence.MatchFromAt | src/rules/tetromino.cpp:245-275 | the tokens from e on match the pieces from it on exactly when token e takes some and the rest match the remainder |
| PieceSequence.MatchAdvance | src/rules/tetromino.cpp:245-275 | a token that takes nothing makes the rest fail; a token that takes n pieces hands the match on to the next token, n pieces further |
| PieceSequence.MatchToken | src/rules/tetromino.cpp:246-270 | one token's check accepts exactly when the token takes pieces there, and reports how many |
| PieceSequence.MatchTokens | src/rules/tetromino.cpp:242-278 | `match` succeeds exactly when the tokens describe the whole sequence with nothing left over |
| PieceSequence.SetTokenMatches | src/rules/tetromino.cpp:252-266 | a lone set token matches exactly `count` pieces that are allowed and of distinct kinds |
| PieceSequence.Pool | src/rules/tetromino.cpp:201-226 | definition: an exclusion set draws from the kinds it does not name, a plain set from its members |
| PieceSequence.Draw | src/rules/tetromino.cpp:185-240 | definition: tokens in order, a letter adding its kind and a set a sample of min(count, pool size) of its pool; none for an empty set, an empty pool or an empty result |
| PieceSequence.Generate | src/rules/tetromino.cpp:185-240 | definition: `generate` returns the canonical pieces of the kinds `Draw` gives |
| PieceSequence.Complement | src/rules/tetromino.cpp:201-213 | the pool of an exclusion set holds exactly the kinds not written, each once |
| PieceSequence.FilterOut | src/rules/tetromino.cpp:208-213 | removing the written kinds keeps exactly the others, without repeats |
| PieceSequence.DrawFails | src/rules/tetromino.cpp:185-240 | generation fails exactly when an exclusion set names all seven kinds, or nothing was generated at all |
| PieceSequence.GenerateFailsIffBlocked | src/rules/tetromino.cpp:185-240 | a parsed spec fails to generate exactly when one of its exclusion sets leaves an empty pool |
| PieceSequence.Step | src/rules/tetromino.cpp:191-229 | a letter generates one piece; a set whose pool is big enough generates exactly `count` |
| PieceSequence.StepMatches | src/rules/tetromino.cpp:217-228 | what one token generates is what it accepts, when its pool has no repeats |
| PieceSequence.DrawMatches | src/rules/tetromino.cpp:185-278 | generation from a drawable token list succeeds and what it appends matches the tokens |
| PieceSequence.GenerateMatches | src/rules/tetromino.cpp:185-278 | for every draw stream, the pieces generated from a drawable spec match that spec |
| PieceSequence.RepeatedLetterBreaksMatch | src/rules/tetromino.cpp:217-266 | a plain set that repeats a letter and draws all of them (`[II]p2`) generates the repeat, which its own `match` then rejects |
| PieceSequence.ShortPoolBreaksMatch | src/rules/tetromino.cpp:217-266 | an exclusion set whose count exceeds what it leaves generates only its pool, fewer pieces than it asks for, which its own `match` then rejects |
| PieceSequence.ShortPoolExample | src/rules/tetromino.cpp:217-266 | `[^IJLOST]p2` generates the single piece Z, and `match` rejects it |
| PieceSequence.GenerateTokens | src/rules/tetromino.cpp:185-240 | the generation loop gives what `Generate` describes |
| PieceSequence.GeneratedConforms | src/rules/tetromino.cpp:280-294 | what `gen` returns for a valid, drawable spec passes `sequence_match` for that spec |
| PieceSequence.Gen | src/rules/tetromino.cpp:280-286 | `gen` is none for an invalid spec; otherwise it is what generation gives |
| PieceSequence.SequenceMatch | src/rules/tetromino.cpp:288-294 | `sequence_match` is false for an invalid spec; otherwise it is `match` |
| RandomChoice.Pick | include/rules/bag.hpp:62-65 | a uniform pick lands in the pool |
| RandomChoice.Arrange | src/rules/tetromino.cpp:217-228 | a sample then a shuffle yields min(k, pool size) elements of the pool, and all of it when k covers the pool |
| RandomChoice.ArrangeReachable | include/rules/bag.hpp:28 | every ordering of every k elements of the pool comes from some draw stream |
| RandomChoice.DrawnFromPool | src/rules/tetromino.cpp:217-225 | whatever is drawn comes from the pool |
| RandomChoice.ArrangeOfRepeat | src/rules/tetromino.cpp:222-225 | drawing both elements of a pool holding one value twice yields that value twice |
| Playfield.Full | include/rules/field.hpp:155-157 | definition: a row is full when no cell in it is EMPTY |
| Playfield.Unfull | include/rules/field.hpp:152-164 | the rows that survive a line clear are no more than before, and none of them is full |
| Playfield.UnfullRemovesAtMost | include/rules/field.hpp:152-164 | when only rows lo..hi-1 can be full, a line clear removes at most hi - lo rows |
| Playfield.UnfullDropsFull | include/rules/field.hpp:152-164 | a full row is always removed, so a clear with a full row leaves fewer rows |
| Playfield.BlockOf | include/rules/field.hpp:223-234 | a piece leaves its own block kind; only INVALID leaves EMPTY |
| Playfield.Lockable | include/rules/field.hpp:96-100 | definition: a row is locked when every cell holds a piece block and none is a guide |
| Playfield.Attributed | include/rules/field.hpp:94-112 | the attribute pass keeps every block kind and the row length |
| Playfield.AttributedIdempotent | include/rules/field.hpp:94-112 | applying the attribute pass twice is the same as once |
| Playfield.GarbageRow | include/rules/field.hpp:174-180 | a garbage row is GARBAGE everywhere except an EMPTY hole |
| Playfield.GarbageRowIsNotFull | include/rules/field.hpp:177 | a garbage row is never cleared as full |
| Playfield.BlockAt | include/rules/field.hpp:130-143 | a read outside the field, negative coordinates included, sees WALL; inside, a GUIDE cell reads EMPTY and any other cell its block |
| Playfield.Covers | include/rules/field.hpp:189-207 | definition: piece t anchored at (x, y) covers the field cell at row r, column c when shape row y - r, column c - x is occupied |
| Playfield.Stamp | include/rules/field.hpp:189-207 | a stamp keeps the board's size and writes the value exactly into the covered cells |
| Playfield.Field.constructor | include/rules/field.hpp:89-91 | a new field has `height` rows of `width` (EMPTY, NORMAL) cells, so it is empty |
| Playfield.Field.View | include/rules/field.hpp:83-86 | the field is well formed exactly when its view is well sized |
| Playfield.Field.GetBlock | include/rules/field.hpp:130-143 | `get_block` is the read of the view |
| Playfield.Field.Clear | include/rules/field.hpp:115-119 | every cell goes back to (EMPTY, NORMAL), so the field is empty |
| Playfield.Field.SetBlock | include/rules/field.hpp:121-128 | inside the field exactly one cell changes; outside nothing changes |
| Playfield.Field.RemoveRow | include/rules/field.hpp:145-150 | row y goes, the rows above move down, a blank row tops the field, the height stays; out of range nothing happens |
| Playfield.Field.ProceedLines | include/rules/field.hpp:152-164 | the non-full rows stay, in order, topped by one blank row per removed row; the count is the number of full rows; no full row remains |
| Playfield.Field.PutGarbage | include/rules/field.hpp:166-186 | nothing for count 0 or above the height; otherwise `count` garbage rows at the bottom, old row k at k + count, the top rows lost |
| Playfield.Field.PutMino | include/rules/field.hpp:189-207 | exactly the covered in-field cells take the piece's block (GUIDE or NORMAL); a guide then reads EMPTY |
| Playfield.Field.PutColumn | include/rules/field.hpp:193-205 | one column of the stamp extends the stamped region by that column |
| Playfield.Field.CalculateAttribute | include/rules/field.hpp:94-112 | every row becomes what the attribute rule makes of it |
| Playfield.RemovalStep | include/rules/field.hpp:159 | removing one full row adds one blank row to the surviving rows and one fewer full row remains from y up |
| Playfield.AttributeRow | include/rules/field.hpp:96-110 | the two inner loops give the attribute rule of one row: all LOCKED when every cell is a piece block that is not a guide, else LOCKED back to NORMAL |
| KickTable.KickIndex | include/rules/kick_table.hpp:50-66 | a slot below 12 exists exactly when both directions are at most 3 and they differ |
| KickTable.KickIndexFollowsOrder | include/rules/kick_table.hpp:28-66 | the index arithmetic picks slot k exactly for the k-th pair of the documented table order |
| KickTable.KickIndexIsBijective | include/rules/kick_table.hpp:46-72 | different pairs of directions read different slots |
| KickTable.EverySlotIsUsed | include/rules/kick_table.hpp:28-35 | every slot 0..11 is read for its documented pair |
| KickTable.Get | include/rules/kick_table.hpp:46-72 | `general_get` is empty for no slot; otherwise an I piece reads the I table at the slot and every other piece the common one |
| Spin.Occupied | include/rules/spin.hpp:38-41 | a corner outside the field always counts as occupied |
| Spin.RawCorners | include/rules/spin.hpp:35-42 | definition: the four corner flags left-top, right-top, right-bottom, left-bottom of the box at (x, y), each set where the field does not read EMPTY; always four of them |
| Spin.RotateLeft | include/rules/spin.hpp:44-49 | turning the corners by d moves corner (i + d) mod 4 to place i; directions above 3 turn nothing |
| Spin.CountRotateLeft | include/rules/spin.hpp:44-51 | turning the corners does not change how many are occupied |
| Spin.Count | include/rules/spin.hpp:51 | `std::count` of `true` over the flags: never more than there are flags |
| Spin.CountIsOccurrences | include/rules/spin.hpp:51 | the count is exactly the number of occurrences of `true` among the flags |
| Spin.Corners | include/rules/spin.hpp:35-49 | the corners as the rule reads them: for direction d the raw corners turned left by d, so place i holds raw corner (i + d) mod 4, and as many of them are occupied as before the turn |
| Spin.TSpin | include/rules/spin.hpp:29-31 | `tspin` is NONE for every piece other than T |
| Spin.TSpinByFrontCorners | include/rules/spin.hpp:37-58 | for a T facing d: SPIN when three or more corners are occupied including raw corners d and d + 1; MINI when exactly three are, without both; NONE below three |
| Spin.FourCornersIsSpin | include/rules/spin.hpp:51-58 | with all four corners occupied a T is a SPIN in every direction |
| Spin.TSpinPlus | include/rules/spin.hpp:63-72 | `tspin_plus` differs from `tspin` only by turning NONE into MINI for an immobile T, and is NONE for other pieces |
| Spin.Classify | include/rules/spin.hpp:29-109 | T pieces get `tspin` (`tspin_plus` under the plus rules); other pieces get NONE under the T rules, and under the all rules SPIN or MINI exactly when immobile |
| Spin.PlusOnlyAddsImmobileT | include/rules/spin.hpp:84-109 | a plus rule and its plain form disagree exactly on an immobile T that the plain form calls NONE |
| AttackTable.ClearOfIndex | include/rules/attack_table.hpp:14-16 | the cast from lines - 1 gives the attack type with that value |
| AttackTable.ClearName | include/rules/attack_table.hpp:38-43 | definition: the name SINGLE, DOUBLE, TRIPLE or QUAD of the clear; `DescribeToString` reads it back |
| AttackTable.SpinPrefix | include/rules/attack_table.hpp:32-36 | definition: nothing without a spin, "c-SPIN " for a spin and "MINI c-SPIN " for a mini, c the piece letter; `DescribeToString` reads it back |
| AttackTable.ToString | include/rules/attack_table.hpp:29-49 | definition: the spin prefix, then the clear's name, then "!!" for a perfect clear; its meaning is stated by `ToStringMarksPerfectClear` and `DescribeToString` |
| AttackTable.ToStringMarksPerfectClear | include/rules/attack_table.hpp:45-46 | the text ends in "!!" exactly for a perfect clear |
| AttackTable.DescribeToString | include/rules/attack_table.hpp:29-49 | the text gives back the spin, the clear and the perfect-clear flag: "c-SPIN " for a spin, "MINI c-SPIN " for a mini, nothing otherwise, then the name |
| AttackTable.Get | include/rules/attack_table.hpp:79-100 | with no back-to-back and no combo, a perfect clear sends between 10 and 20 lines and any other clear at most 10; the exact value is stated by `PerfectClearBonus` |
| AttackTable.BaseValueMonotone | include/rules/attack_table.hpp:69-76 | a bigger clear or a better spin is never worth less |
| AttackTable.PerfectClearBonus | include/rules/attack_table.hpp:79-100 | with no back-to-back and no combo, the attack without a perfect clear is exactly the table value for the spin and the clear, and a perfect clear adds exactly 10 to it |
| AttackTable.BaseValue | include/rules/attack_table.hpp:69-76 | definition: the `__table` entry for the spin and the clear |
| AttackTable.PlainAndSpinValues | include/rules/attack_table.hpp:69-76 | a plain clear sends lines - 1 (a QUAD 4); a mini sends the same except 3 for a TRIPLE; a spin sends twice the lines, plus 2 for a QUAD |
| Bags.Extras | include/rules/bag.hpp:60-65 | `bag7x<N>` adds N pieces, each of a real kind |
| Bags.ShufflePool | include/rules/bag.hpp:19-71 | every shuffling rule shuffles at least the seven kinds |
| Bags.Batch | include/rules/bag.hpp:19-84 | every batch holds at least one piece |
| Bags.Bag7IsPermutation | include/rules/bag.hpp:21-30 | a `bag7` batch is the seven pieces in some order |
| Bags.Bag7TakesEveryOrder | include/rules/bag.hpp:28 | every order of the seven pieces is a possible `bag7` batch |
| Bags.Bag14HasEachTwice | include/rules/bag.hpp:35-46 | a `bag14` batch has 14 pieces, each kind exactly twice |
| Bags.DistinctKindsCountOnce | include/rules/bag.hpp:22-26 | the seven kinds each occur once among them |
| Bags.Bag7xHasEveryKind | include/rules/bag.hpp:53-70 | a `bag7x<N>` batch has 7 + N pieces and every kind at least once |
| Bags.ClassicIsOnePiece | include/rules/bag.hpp:75-83 | a `bag_classic` batch is one piece of a real kind |
| Bags.Builder | include/rules/bag.hpp:14-17 | a rule's generator builds the rule's batches, never an empty one |
| Bags.Upcoming | include/rules/bag.hpp:119-128 | the next k pieces: what is left of the batch, then fresh batches |
| Bags.RestOfBatchFirst | include/rules/bag.hpp:119-128 | the pieces still in the batch come out first, in order |
| Bags.FreshBatchFirst | include/rules/bag.hpp:120-123 | a used-up bag builds a new batch and hands it out whole, in order |
| Bags.TakeFromBatch | include/rules/bag.hpp:125-127 | handing out a piece still in the batch: it comes first, the rest follows |
| Bags.TakeFromNewBatch | include/rules/bag.hpp:120-127 | handing out from a used-up bag: a new batch's first piece comes first, its rest follows |
| Bags.FirstSevenArePermutation | include/rules/bag.hpp:119-128 | from an empty `bag7`, the first seven pieces are the seven kinds in some order |
| Bags.Bag.constructor | include/rules/bag.hpp:89-90 | a new bag has an empty batch, so the first `next` builds one |
| Bags.Bag.FromPieces | include/rules/bag.hpp:106-109 | with the container constructor the given pieces come out first, in the given order, unshuffled |
| Bags.Bag.Next | include/rules/bag.hpp:119-128 | a new batch is built only at the end of the batch; the piece at the cursor is returned and the cursor moves past it; what was ahead after it is what is ahead now |
| Bags.Bag.Reset | include/rules/bag.hpp:130-133 | the batch is emptied, so the next `next` builds a new one |
| History.Inv | include/util/buffer.hpp:208-211 | definition: a log holds nothing, or entries start..last with start <= current <= last and fewer than N + 1 of them |
| History.Live | include/util/buffer.hpp:208-211 | the live entries are start..last: none in a fresh log, otherwise last - start + 1, never more than N |
| History.SizeOf | include/util/buffer.hpp:352 | `size` is last - start, one less than the number of live entries, never negative |
| History.AfterClear | include/util/buffer.hpp:311-315 | `clear` gives a fresh log with nothing live and leaves the slots as they were |
| History.Current | include/util/buffer.hpp:338-343 | `current` is the live entry at the cursor; on a fresh log, where nothing is live, it is the slot (2^64 - 1) mod N that the all-ones cursor selects |
| History.SlotsDiffer | include/util/buffer.hpp:229 | entries less than N apart sit in different slots |
| History.LiveIndex | include/util/buffer.hpp:229 | entry i of the log is stored in slot i mod N |
| History.AfterPush | include/util/buffer.hpp:225-232 | definition: the cursor moves one on, the value goes to its slot, last becomes the cursor, and start moves on when that makes N + 1 entries |
| History.PushKeepsInv | include/util/buffer.hpp:225-232 | after a push start <= current <= last with at most N live entries, and the log holds something |
| History.PushLive | include/util/buffer.hpp:225-232 | after a push the log is the past up to the cursor, then the new value, less the oldest entry when that would make N + 1; the redo future is gone and the cursor is at the newest |
| History.PushSlot | include/util/buffer.hpp:229 | a push writes the slot of the new entry only, leaving the slots of the kept entries alone |
| History.PushAdvancesStart | include/util/buffer.hpp:226-231 | a push moves start by one exactly when the log already spanned N entries up to the cursor; last becomes the old cursor + 1; afterwards `size` is at most N - 1 |
| History.AfterPop | include/util/buffer.hpp:266-272 | definition: nothing at size 0; otherwise the newest slot is reset, last steps back, and the cursor too if it was there |
| History.PopLive | include/util/buffer.hpp:266-272 | `pop` does nothing at size 0; otherwise it drops the newest entry only, keeps start, and moves the cursor only if it was at the newest |
| History.AfterNext | include/util/buffer.hpp:281-285 | definition: false at the newest entry; otherwise the cursor steps forward |
| History.AfterPrev | include/util/buffer.hpp:294-298 | definition: false at the oldest entry; otherwise the cursor steps back |
| History.NextMoves | include/util/buffer.hpp:281-285 | `next` fails and changes nothing exactly at the newest entry; otherwise the cursor moves forward one over the same entries |
| History.PrevMoves | include/util/buffer.hpp:294-298 | `prev` fails and changes nothing exactly at the oldest entry; otherwise the cursor moves back one over the same entries |
| History.PushAll | include/util/buffer.hpp:225-232 | pushes one after another keep the invariant and the capacity |
| History.PushAllKeepsNewest | include/util/buffer.hpp:225-232 | from a cleared log, pushes keep the newest N values with the cursor at the newest, and start is the number of values beyond N |
| History.OverfullDropsFirst | include/util/buffer.hpp:225-232 | after N + 1 pushes into a cleared log start is 1, so undo stops one short of the first value |
| History.UndoRedo | include/util/buffer.hpp:225-343 | clear, push a, b, c, then prev twice: the entry in use is a, a third prev fails, and next then gives b |
| History.Buffer.constructor | include/util/buffer.hpp:183 | a default buffer has current = -1, start = last = 0 and nothing live |
| History.Buffer.Push | include/util/buffer.hpp:225-232 | the array and cursors become what `push` makes of them |
| History.Buffer.Pop | include/util/buffer.hpp:266-272 | the array and cursors become what `pop` makes of them |
| History.Buffer.Next | include/util/buffer.hpp:281-285 | returns and does what `next` does |
| History.Buffer.Prev | include/util/buffer.hpp:294-298 | returns and does what `prev` does |
| History.Buffer.Clear | include/util/buffer.hpp:311-315 | the cursors are reset, the array kept |
| History.Buffer.CurrentValue | include/util/buffer.hpp:338-343 | the value in the cursor's slot is the live entry at the cursor; on a fresh log, where nothing is live, it is the slot (2^64 - 1) mod N that the all-ones cursor selects |
| History.Buffer.Size | include/util/buffer.hpp:352 | last - start |
| History.Buffer.IsFirst | include/util/buffer.hpp:317-324 | the entry in use is the oldest exactly when `prev` fails, and then `prev` leaves the log as it is |
| History.Buffer.IsLast | include/util/buffer.hpp:326-333 | the entry in use is the newest exactly when `next` fails, and then `next` leaves the log as it is |
| History.Buffer.Empty | include/util/buffer.hpp:356 | `empty` holds exactly when the log has at most one live entry |
| Session.Collides | include/game.hpp:513-531 | definition: INVALID always collides; another piece collides when one of its occupied cells reads anything but EMPTY, outside the field included |
| Session.Immobile | include/game.hpp:544-550 | definition: the piece collides one column left, one right, one row up and one row down |
| Session.FreeIsInside | include/game.hpp:513-531 | a real piece that does not collide has every occupied cell inside the field |
| Session.Fall | include/game.hpp:738-741 | a falling piece stops at a row no higher than its start, where the row below collides and every row passed was free |
| Session.FallStep | include/game.hpp:738-741 | with a free row below, falling from here is falling from there |
| Session.ImmobileDoesNotFall | include/game.hpp:738-743 | an immobile piece falls no rows, so its spin survives the drop |
| Session.FallFromBetween | include/game.hpp:738-741 | from any row passed on the way down, a piece rests where it would have rested from the top |
| Session.Tries | include/game.hpp:698-713 | definition: `rotate` tries no offset first, then the kick list for the piece and the two directions, in order |
| Session.FirstFree | include/game.hpp:705-713 | the first offset at which the piece is free, every earlier one colliding; none when all collide |
| Session.SpawnColumn | include/game.hpp:822 | definition: the spawn column, width / 2 - (size + 1) / 2, negative when the piece is wider than half the field |
| Session.SpawnColumnIsCentred | include/game.hpp:822 | a piece spawns centred, leaning left: the space on its right is at most two columns more than on its left |
| Session.Lifts | include/game.hpp:827-831 | the extended spawn rule tries 0, 1, … rows up, below the extended height |
| Session.SpawnRow | include/game.hpp:822-837 | a piece spawns on the base row when free there; else, under the extended rule, on the first free row below base + extended height; the game is over when no row is free or the rule is off |
| Session.ExtendedHeightOneNeverLifts | include/game.hpp:826-835 | the extended search starts at the base row, so with extended height at most 1 a piece is never lifted |
| Session.SpawnedIffFree | include/game.hpp:825-837 | the game goes on exactly when the piece is free where it appears |
| Session.StampLeavesRow | include/rules/field.hpp:189-207 | a row the piece does not reach is left as it was |
| Session.StampFillsAtMostSize | include/game.hpp:745-755 | a piece stamped onto a field without full rows completes at most as many rows as it is tall, so at most 4 lines clear |
| Session.StampedPieceCollides | include/game.hpp:745 | a real piece stamped where it was free collides there afterwards |
| Session.Scored | include/game.hpp:757-781 | definition: a clear sets the type to lines - 1, adds one to combo and breaks back-to-back to -1 unless a spin or a quad; no clear resets combo, type, spin and perfect clear |
| Session.Replay | include/game.hpp:757-781 | definition: the counters after a run of locks, each applied as `Scored` says |
| Session.ReplayCounts | include/game.hpp:757-781 | from the initial counters, combo is the number of clearing locks in a row at the end, and back-to-back is one less than the run of spin or quad clears, locks that clear nothing neither counting nor breaking it |
| Session.Landed | include/game.hpp:738-781 | after a drop the piece is never higher, and a spin counts only if the last move was a rotation and the drop moved no rows; the height of the field is kept |
| Session.LandedCountsFullRows | include/game.hpp:745-781 | a drop registers a clear, the combo growing by one, exactly when the stamped piece completes a row; otherwise the stamped rows stay as they are, the combo drops to 0 and back-to-back is kept |
| Session.LandedLeavesNoFullRow | include/game.hpp:745-755 | a drop leaves no full row behind |
| Session.Deal | include/game.hpp:299-304 | the next k pieces dealt: the queue, then what the bag hands out |
| Session.PushKeepsDeal | include/game.hpp:299-300 | moving the bag's next piece to the back of the queue leaves the deal unchanged |
| Session.PopFromDeal | include/game.hpp:302-303 | dealing the queue's front piece: it comes first, the rest of the deal follows |
| Session.Game.constructor | include/game.hpp:53-69 | a field of height + extra height rows, an empty bag, no pieces, no hold, hold available, the initial counters, stopped |
| Session.Game.Upnext | include/game.hpp:299-304 | there is a next-pieces sequence of every length |
| Session.Upright | include/game.hpp:879 | definition: `set_direction(0)`: the same kind and size at direction 0, turned clockwise (4 - direction) mod 4 times |
| Session.Game.Reset | include/game.hpp:952-969 | the field is blank and the bag empty; no queue, no piece, no hold; counters initial, no spin, stopped; hold availability, position and kick index kept |
| Session.Game.IsInCollision | include/game.hpp:513-531 | INVALID always collides; any other piece collides exactly when one of its occupied cells reads anything but EMPTY, outside the field included |
| Session.Game.IsImmobile | include/game.hpp:544-550 | immobile exactly when the piece collides one column left, one right, one row up and one row down |
| Session.Game.Left | include/game.hpp:633-649 | moves one column left exactly when that is free, ending any spin; otherwise nothing changes |
| Session.Game.Right | include/game.hpp:651-667 | moves one column right exactly when that is free, ending any spin; otherwise nothing changes |
| Session.Game.Bottom | include/game.hpp:738-741 | the loop down stops on the row `Fall` names |
| Session.Game.Down | include/game.hpp:669-690 | moves exactly when the row below is free: one row, or all the way down under infinite soft drop, ending any spin; otherwise nothing changes |
| Session.Game.FirstFreeTry | include/game.hpp:705-713 | the search stops at the first free offset, or runs out exactly when all collide |
| Session.Game.Kick | include/game.hpp:695-715 | the turned piece takes the first free try among no offset then the kick list; the kick index is the try's index less one, modulo 2^32; when none is free, no turn is possible |
| Session.Game.Place | include/game.hpp:720-725 | the piece, its position, the spin flag and the kick index take the new values, nothing else |
| Session.Game.Rotate | include/game.hpp:692-730 | nothing happens without a piece; otherwise the first free try is taken, with the spin flag set and the kick index recorded; when all collide nothing changes |
| Session.Game.PushFromBag | include/game.hpp:300 | the bag's next piece joins the back of the queue, and the pieces about to be dealt do not change |
| Session.Game.DealFromEmptyQueue | include/game.hpp:578-579 | with the queue empty, what is dealt is what the bag hands out |
| Session.Game.DealAfterPop | include/game.hpp:302-303 | once the front piece is dealt, the deal is what followed it |
| Session.Game.DealAfterPush | include/game.hpp:300 | once the bag's next piece is queued, the deal is what it was before |
| Session.Game.TopUp | include/game.hpp:299-300 | the queue is topped up to one more than the preview count, keeping its pieces and what will be dealt |
| Session.Game.GetNext | include/game.hpp:282-305 | outside puzzle mode, the queue is topped up, then its front is dealt: the old front if there was one, and the deal moves on by exactly that piece |
| Session.Game.GameOver | include/game.hpp:941-950 | the session stops, nothing else changes |
| Session.Game.Spawn | include/game.hpp:797-862 | a new piece is dealt when asked for; the piece goes to its spawn place; the session keeps running and hold is made available exactly as the placement allows |
| Session.Game.Appear | include/game.hpp:822-840 | the piece goes to the spawn column and row; the session stops when there is no room; a placement not from hold makes hold available |
| Session.Game.SpawnPosition | include/game.hpp:822-837 | the spawn column, and the spawn row or the base row; placed exactly when the piece is free there |
| Session.Game.Land | include/game.hpp:738-743 | the piece falls to the row `Fall` names, a fall of a row or more ends the spin, and immobility is read before locking |
| Session.Game.Settle | include/game.hpp:745-781 | the piece is stamped; the spin is judged on the stamped field; the full rows go, at most 4; the counters take the clear |
| Session.Game.Score | include/game.hpp:757-781 | a clear sets the type to lines - 1, adds one to combo, records spin and perfect clear, and breaks back-to-back to -1 unless a spin or a quad; no clear resets combo, type, spin and perfect clear and keeps back-to-back |
| Session.Game.Lock | include/game.hpp:738-781 | the locking part of `drop` leaves the field, the row, the spin flag and the counters as `Landed` says |
| Session.Game.Drop | include/game.hpp:732-795 | nothing without a piece; otherwise the piece locks as `Landed` says and the next piece spawns from the deal |
| Session.Game.Hold | include/game.hpp:864-886 | nothing when hold is off or used, or when nothing is held and the queue is empty; otherwise the piece in play swaps with the held one, or is held while the next spawns; the held piece is turned upright; hold stays available only when infinite |
| Session.Game.SwapHold | include/game.hpp:868-882 | with a piece held, the two change places and the held one appears again |
| Session.Game.HoldFresh | include/game.hpp:872-882 | with nothing held, the piece in play is held and the next is dealt |
| Session.Game.TurnHold | include/game.hpp:879-882 | the held piece goes back to direction 0; hold stays available only when infinite |
| Session.Game.Fill | include/game.hpp:564-579 | the queue is refilled from the bag up to the preview count, so the pieces to come are what the bag deals |
| Session.Game.Begin | include/game.hpp:582-618 | after the queue is filled: hold is emptied and made available when enabled, the first piece spawns and is dealt from the queue, and the session runs; hold is then available exactly when enabled or the spawn found room |
| Session.Game.Start | include/game.hpp:563-619 | the queue is filled to the preview count; hold is emptied and made available when enabled; the first piece spawns; the session runs, even when that spawn ended the game |
| Session.Game.Garbage | include/game.hpp:925-928 | `count` garbage rows come in at the bottom with the hole at `hole` or at the random column; no effect for count 0 or above the height; the field keeps no full row |

## Left out

- Drawing: all ncurses rendering, windows, colours and palettes are left out. They are presentation only.
- Timing: the start countdown, frame and FPS timing, and the on-screen messages are left out. They are clock and screen I/O.
- The random engine's algorithm is not modelled. `std::mt19937`, `std::shuffle`, `std::sample` and `uniform_int_distribution` are a stream of draws. The model states which outcomes are possible, not how likely each is.
- Playfield.Field.PutGarbage: the random hole comes from a private `random_device` engine. It is passed in as `randomHole`.
- Session.Game.Garbage: the same random hole is a parameter.
- Kick data: the offset tables of SRS, SRS+ and SRS-X are defined in a source file that is not part of this model. A rule set is the parameter `KickTable.KickData`.
- AttackTable.Get: only the case with back-to-back at most 0 and combo 0 is modelled. The `log1p` back-to-back bonus and the combo multiplier are floating point.
- The attack history strings that `drop` records are left out: they are display text. `AttackTable.ToString` models the text itself.
- Puzzle mode is left out: the puzzle callback, the puzzle queue, and the INVALID branches of `_M_get_next` and `spawn`. So is `restart`, whose countdown is wall-clock.
- Undo and redo are left out: the snapshot push at the end of `spawn`, `undo` and `redo`. Snapshots copy the bag's save type and the engine state, which are not part of this model. The history buffer itself is modelled on its own.
- `proceed_input` and the key map are left out. They are input dispatch, whose cases are the modelled moves.
- History.Buffer: the second `push` overload (by move) is the same as the first. The three-argument constructor, the iterators and the DEBUG accessors are left out.
- History.Current and History.Buffer.CurrentValue: take `size_t` to be 64 bits wide. On a fresh log they read the slot of the cursor 2^64 - 1; a narrower `size_t` would select another slot, equally outside the live entries.
- History.Buffer.Prev: requires at least one push. On a fresh buffer the source steps `current` below its all-ones value.
- Session.Game.Left, Session.Game.Right, Session.Game.Down and Session.Game.IsImmobile: require a piece in play. The source dereferences an empty optional otherwise.
- Session.Game.Hold: requires a piece in play whenever hold would act, for the same reason.
- PieceSequence.MatchChunk, PieceSequence.MatchTokens and PieceSequence.SequenceMatch: require pieces of real kinds. The INVALID kind has no slot in the seven-entry `__chk` table.
- Playfield.Field.ProceedLines and Session.Game.constructor: require a width above 0. On a zero-width field every row counts as full and the source loop never ends.
- PieceSequence.Scan: where the parser reads the character at the end of the text (after `[`, or looking for `!` after a set), the model reads "not that character".
- `is_empty`, `width`, `height` and `data` of the field are plain accessors (`Playfield.Field.IsEmpty` and the fields).

## Notes on the source

These are places where the model follows what the code does.

- `[^O]!` draws one piece. `!` takes its count from the number of letters written, here 1 (src/rules/tetromino.cpp:157). The documentation comment at include/rules/tetromino.hpp:205 says all six. The model follows the code.
- An exclusion set can ask for more pieces than its pool holds, as in `[^IJLOST]p2`. Then `generate` draws only as many as the pool holds (src/rules/tetromino.cpp:219), and `match` rejects the result. `PieceSequence.Drawable` names the specs for which generation and matching agree.
- A plain set that repeats a letter and draws all of them, such as `[II]p2`, generates the repeat. Its own `match` rejects a repeat (`PieceSequence.RepeatedLetterBreaksMatch`).
- The bag's container constructor hands the given pieces out unshuffled, though its comment says they are shuffled (include/rules/bag.hpp:101,109).
- The extended spawn loop starts at 0 extra rows, where the piece is already known to collide. So it lifts a piece by at most extended height - 1 rows (`Session.ExtendedHeightOneNeverLifts`).
- The kick index is an unsigned 32-bit integer. The "no kick" value -1 is stored as 0xFFFFFFFF.
- `drop` does not clear the spin flag before the next piece spawns.
- `start` sets the session running even when its first spawn ended the game.
- `start` sets hold availability to the hold setting, and the spawn that follows may set it to true. So hold is available after `start` exactly when it is enabled or the spawn succeeded.
- With a preview count of 0, `start` leaves the queue empty. `hold` with nothing held then does nothing.
- The INVALID kind is declared by src/rules/tetromino.cpp:52 but is missing from the enumeration at include/rules/tetromino.hpp:19-21. The model gives it an eighth value.
