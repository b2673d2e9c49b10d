# Verified models of line bookkeeping

This project models parts of an editor that keep line and column numbers right while text changes, and proves what
they promise: the diff-block engine, the commands that move, copy and retabulate lines, the marks that follow
lines, virtual columns, and the bracket and conditional tracking of the C linter that comes with the editor.

Run `dafny verify dfyconfig.toml` to check everything.

## How it is laid out

Each algorithm that changes state in place is a method or a class here, with the same loops and the same branches. It
is proved equal to a function of the old state, and what the algorithm is for is proved of that function.

| modules | what they cover |
|---|---|
| `LineCompare` | the comparison of lines, as an equivalence given by a normal form |
| `DiffBlocks`, `DiffTrim`, `MarkAdjust*`, `DiffRead*` | the list of diff blocks as a sequence: what it means to fit the buffers, shrinking a block, repairing the list after an edit, and merging in the changes of one more buffer; the main results are in `MarkAdjustResults` and `DiffReadResults`, the conditions of the latter in `DiffReadConditions` |
| `DiffDisplay`, `DiffLines` | filler lines, scroll binding and the two lookups of corresponding lines |
| `DiffGetMarks`, `DiffGetTurn`, `DiffGetCut`, `DiffGetKeeps`, `DiffGetRuns`, `DiffGetSamples` | `:diffget` and `:diffput` on sequences, for any range and any number of buffers: what the adjustment of marks does to the other entries, one turn of the loop and the whole loop (`Turn`, `GetPut`), when the list fits afterwards, and inputs at which it does not |
| `DiffGet`, `DiffGetAll` | the same when the range cuts no block and only two buffers are in the diff: the blocks left, the text, and taking everything |
| `DiffList`, `DiffReadList`, `DiffLookup`, `DiffGetList` | the same operations on the linked list, node by node |
| `TextLines`, `Sequences`, `Marks`, `Highlights`, `MoveCopy` | lines of a buffer, signs and highlights, `:move` and `:copy` |
| `Retab`, `Columns`, `Coladvance` | `:retab`, the virtual column of a position, and the position of a virtual column |
| `Nesting`, `Brackets` | the linter |

Two notions carry the diff part. `Aligned` says that a list of blocks fits the line counts of the buffers: counts are
not negative, the first block starts at the same line everywhere, and the stretches between and after the blocks are
equally long everywhere, with at least one line between two blocks. `Faithful` adds that these stretches have the same
text. Both are instances of one recursive predicate, `Sync`.

## Where the code does not do what it promises

The model follows the code. In these places a promise fails. The conditions are on what goes in: the list, the change and
the text before or after it.

- An edit can be counted twice (src/nvim/diff.c:247-252 and 379). When the block the edit touches is shrunk so far that
  it ends above the edit, the test for an edit outside all blocks succeeds on the next turn. `AdjustAligned` shows that
  an insertion or deletion leaves an aligned list aligned if and only if that does not happen, and says when it does by
  the new text (`AnyAlike`): lines are inserted in or next to a block, and the line above them, the inserted lines and
  the rest of the block are common to all buffers; or the last lines of a block are deleted and the line above them is
  common to all buffers. `AdjustCanFail` is an example: the first line differs, and a line equal to the last one is
  appended to one buffer.
- A change read from the diff output that meets a block already set and goes beyond it is not counted in full
  (src/nvim/diff.c:1304-1309). `ReadAligned` shows that the list fits the new buffer if and only if no change does that
  (`Lacking`, on the old blocks and the changes alone), `ReadShortBy` that the list is short by just these lines, and
  `OverrunFails` is an example.
- A block can lose its end (src/nvim/diff.c:1289-1315). When a change starts above the only block it meets, the start of
  the block is moved before its end is read from the same node, so the end is read too high; if the change also ends
  inside the block, its last lines are lost. `ReadCoversAll` shows, for all runs, that the blocks cover the right lines
  if and only if for each end lost in this way one change has all the lines in question (`NothingLost`), and `ClipLoses`
  is an example in which lines 8 and 9 are lost.
- The bound window can be a row off (src/nvim/diff.c:1744-1750). `SameTop` shows that the two windows start on the same
  row if and only if the top line is not in a block that ends the other buffer and has fewer lines there
  (`PastShorterEnd`): then the top line is limited to the last line.
- `:diffget` of everything does not always make the buffers equal (src/nvim/diff.c:2247-2272). The test for an empty
  buffer also succeeds for a text whose only line is empty, not just at the start but whenever a block without lines in
  the target is met while the text is a single empty line. `TakeAll` gives the exact condition, and `SampleLost` is an
  example with a target of two lines.
- `:diffget` and `:diffput` can leave a list that does not fit the buffers (src/nvim/diff.c:2274-2323). When the range cuts a
  block, or another buffer differs there, the entry stays in the list while marks are adjusted, although its number of lines
  in the target is the new one already. `diff_mark_adjust` then counts lines as added or deleted a second time, which the
  code restores for the target only, and shrinks the block by lines that the command has just made equal. And an entry is
  taken out of the list if no line of the source is skipped, even if the range cuts the bottom of the block.
  `TurnFits` shows for every range and any number of buffers that the list fits after a turn if and only if (`Right`): for
  an entry taken out, all lines of the block in the target were replaced; for one that stays, no lines were added or
  deleted, or `diff_mark_adjust` takes exactly as many lines off the block (`Marked`) as it added to it in the other buffers
  (`Surplus`), does not empty it and does not move its end down to the next block; or, if the next block is merged in, that
  has as many lines in the target as were taken off. `RunOneFits` says the same of whole commands with lines of one block,
  and `RunFits` that the list fits after any run of such turns. `KeptWrongly`, `RemovedWrongly` and `ThirdDiffers` are
  ordinary commands after which it does not, `FewerFromTop` the exact condition for a whole block with a third buffer (the
  target had twice as many lines), and `MoreFromTop` shows that putting the first lines of a block over fewer lines nearly
  always fails.
- `:move` can lose highlights. They may be put on lines that do not exist, as src/nvim/api/buffer.c:682 only refuses
  numbers below 0 or from MAXLNUM on, and the command keeps the marks of the moved lines below the last line for a
  moment, on the assumption that nothing is there (src/nvim/ex_cmds.c:761-773). `DoMove` shows that the buffer has fewer
  lines with highlights afterwards if and only if a line with highlights is where a moved line with highlights is kept
  (`Meets`), and that all lines but these keep theirs. `SampleMeets` is an example with a text of three lines.
- `coladvance2` does not reset `head` between characters (src/nvim/cursor.c:139-157), although the function that sets it
  leaves it alone when it has nothing to report. After a wide character that did not fit at the end of a row, the column
  after the first one of a later character counts as reached. `WronglyReached` shows that this, if the character does not
  leave a blank itself, is the only wrong answer, and `HeadIsKept` is an example.
- `coladvance2` divides by the number of columns for text (src/nvim/cursor.c:118-134), which is zero when the line numbers
  and the like take the whole window (`NoTextColumn`). `DividesByZero` shows that the test before it does not keep the
  cursor from getting there for any wanted column, if the line wraps and the cursor is to be in the very column.
- With MAXCOL, `coladvance2` asks for the columns of the last byte of the line (src/nvim/cursor.c:209-217), and `getvcol`
  goes on to the end of the line if that is not the first byte of a character. `AdvanceToEnd` shows that the cursor is
  then in the last column of the last character only if that has one byte.
- `diff_get_corresponding_line` does not limit its result inside a block (src/nvim/diff.c:2501-2509): `InsideBlock` shows
  exactly when it is past the last line.

## Model

| member | source | states |
|---|---|---|
| LineCompare.SkipWhite | src/nvim/charset.c:1439-1447 | stops at the first character that is not white |
| LineCompare.CompareWhite | src/nvim/diff.c:1584-1627 | the loop that skips white space on both sides answers whether the normal forms differ |
| LineCompare.DiffCmp | src/nvim/diff.c:1574-1628 | two lines differ if and only if their normal forms do, under all options; so being equal is an equivalence |
| LineCompare.SameExact | src/nvim/diff.c:1576-1578 | without flags, lines are equal only if they are identical |
| LineCompare.RunsAlike | src/nvim/diff.c:1584-1620 | with 'iwhite', any run of white space can stand for any other |
| LineCompare.TrailingIgnored | src/nvim/diff.c:1621-1627 | with 'iwhite', trailing white space does not count |
| LineCompare.FoldSame | src/nvim/diff.c:1580-1582 | with 'icase' alone, lines are equal if and only if they are as long and all their folded characters are equal |
| LineCompare.SolidSame | src/nvim/diff.c:1593-1616 | with 'iwhite', lines without white space are equal if and only if all characters are identical or, with 'icase', have the same folded form and number of bytes |
| LineCompare.WhiteCounts | src/nvim/diff.c:1588-1592 | with 'iwhite', white space in front of a character still counts |
| LineCompare.CaseIgnored | src/nvim/diff.c:1598-1615 | with both, a character can stand for another one of the same folded form and size, wherever it is in the line |
| DiffTrim.TrimIs | src/nvim/diff.c:471-551 | shrinking a block removes only lines equal in all buffers, equally many in each, and no count becomes negative |
| DiffTrim.TrimMost | src/nvim/diff.c:495-550 | if the reference buffer has lines left, neither the first nor the last lines of the block all match |
| MarkAdjustKeeps.AdjustKeeps | src/nvim/diff.c:217-440 | after an insertion or deletion in one buffer, the list fits the new text, lines outside blocks staying equal if they were, unless the edit is taken for two |
| DiffTrim.TrimLifts | src/nvim/diff.c:495-550 | shrinking takes at least n lines off the end if and only if the block ends with n lines common to all buffers that its top does not use up |
| MarkAdjustResults.WholeList | src/nvim/diff.c:247-252 | the test for an edit outside all blocks succeeds twice if and only if the touched block ends, from the line above the edit on, with lines common to all buffers in the new text |
| MarkAdjustResults.AdjustAligned | src/nvim/diff.c:243-401 | the list stays aligned if and only if no block ends like that |
| MarkAdjustResults.AdjustFaithful | src/nvim/diff.c:243-430 | if no block ends like that, lines outside blocks stay the same in all buffers |
| MarkAdjustExact.Conserved | src/nvim/buffer_defs.h:777-790 | in a list that fits, the blocks account for the whole difference in length between two buffers |
| MarkAdjustResults.AdjustCanFail | src/nvim/diff.c:247-252 | an append after which the list no longer fits |
| DiffReadResults.LoopConditions | src/nvim/diff.c:1264-1371 | how many lines the loop does not count, and whether it loses the end of a block for good, in terms of the old blocks and the changes alone |
| DiffReadResults.ReadAligned | src/nvim/diff.c:1264-1371 | reading the changes of one more buffer keeps the list aligned for the earlier ones, and aligns it for the new one if and only if no change goes beyond the old blocks that it shares with an earlier one |
| DiffReadResults.ReadShortBy | src/nvim/diff.c:1303-1331 | in the new buffer the blocks lack exactly the lines by which changes go beyond old blocks that they share with an earlier one |
| DiffReadResults.ReadCoversAll | src/nvim/diff.c:1264-1371 | the blocks cover in the original exactly the old blocks and the changes, if and only if for every old block whose end is read too high one change has the lines in between |
| DiffReadResults.ReadFaithful | src/nvim/diff.c:1264-1371 | if no change goes beyond the old blocks it shares and no end is lost, lines outside the blocks are the same in all buffers, the new one included; they are not if a change goes beyond |
| DiffReadResults.OverrunUncounted | src/nvim/diff.c:1303-1310 | two changes that share an old block, the second of which goes two lines beyond it |
| DiffReadResults.OverrunFails | src/nvim/diff.c:1303-1331 | the list read from them does not fit the new buffer |
| DiffReadResults.ClipLoses | src/nvim/diff.c:1289-1331 | a change, in buffers of nine lines that fit it and the old block, after which the last two lines of the block are in no block any more |
| DiffDisplay.SameRow | src/nvim/diff.c:1460-1532 | with filler lines, corresponding unchanged lines are on the same row in all buffers |
| DiffDisplay.StatusMeans | src/nvim/diff.c:1471-1516 | the status of a line in a block is -1 if and only if some other buffer has other lines there, -2 if and only if none has, but some have no lines there, and 0 if and only if all have the same lines |
| DiffDisplay.NoFillerStatus | src/nvim/diff.c:1518-1532 | without 'filler' the status is never a number of filler lines, and otherwise the same |
| DiffDisplay.SameHeight | src/nvim/diff.c:1500-1532 | all buffers take the same number of rows |
| DiffDisplay.ClampFires | src/nvim/diff.c:1744-1750 | the other window would start below its last line if and only if the top line is in a block that ends the other buffer, at or below the number of lines the block has there |
| DiffDisplay.SameTop | src/nvim/diff.c:1655-1755 | the bound window starts on the same row if and only if the top line is not like that, and then asks for no more filler lines than there are |
| DiffDisplay.NoFillerInside | src/nvim/diff.c:1678-1750 | without 'filler', from a line in a block or just below it, the bound window starts at the same distance from the top of the block, at most just below it and never past the last line, without filler lines |
| DiffDisplay.NoFillerOutside | src/nvim/diff.c:1678-1750 | without 'filler', from an unchanged line it starts with the line that corresponds |
| DiffLines.RoundTrip | src/nvim/diff.c:2463-2534 | on unchanged lines the lookup in the other direction gives the line back, and the two lines correspond |
| DiffLines.Monotone | src/nvim/diff.c:2463-2534 | a lower line is never looked up above a higher one |
| DiffLines.InsideBlock | src/nvim/diff.c:2501-2509 | inside a block the lookup gives the line at the same distance from the top, at most the one below the block; it is past the end exactly when the block is the last thing in a buffer in which it is shorter |
| DiffLines.FillerStays | src/nvim/diff.c:2510-2520 | from just below filler lines, the lookup leaves a cursor alone that is on one of the lines they stand for, and leads back |
| DiffLines.Lookups | src/nvim/diff.c:2538-2583 | the lookup for windows agrees, except just below a block that is longer on the other side, where it is smaller |
| DiffList.TabPage.DiffAllocNew | src/nvim/diff.c:449-461 | the new node is linked in between, and the list stays well formed |
| DiffList.DiffCheckSanity | src/nvim/diff.c:560-572 | whether the block is within all buffers |
| DiffList.SameEverywhere | src/nvim/diff.c:499-533 | whether the line at the top or bottom of the block is there and equal in all buffers |
| DiffList.TrimDirection | src/nvim/diff.c:496-544 | the loop takes off all equal lines at one end of the block |
| DiffList.DiffCheckUnchanged | src/nvim/diff.c:471-551 | the node's block is shrunk as specified, in place |
| DiffList.NewBlockNode | src/nvim/diff.c:253-269 | the new block stands for the edit in every buffer |
| DiffList.RepairTopNode | src/nvim/diff.c:306-329 | cases 4 and 5: the deletion covers the top of the block |
| DiffList.CutBottomNode | src/nvim/diff.c:333-347 | case 2: the deletion goes on below the block |
| DiffList.RepairBottomNode | src/nvim/diff.c:330-361 | cases 2 and 3: the block starts above the deletion |
| DiffList.RepairNode | src/nvim/diff.c:289-382 | one block after the edit, in all cases |
| DiffList.MergeAt | src/nvim/diff.c:384-395 | touching blocks become one, and the node is taken out |
| DiffList.WalkList | src/nvim/diff.c:243-401 | the loop over the nodes leaves the list that the specification says |
| DiffList.DropEmptyNodes | src/nvim/diff.c:403-430 | exactly the blocks without lines are taken out |
| DiffList.DiffMarkAdjustTp | src/nvim/diff.c:217-440 | the linked list becomes the adjusted list; while a `:diffget` is busy, no node is added or replaced |
| DiffReadList.DiffCopyEntry | src/nvim/diff.c:1382-1395 | the entry for the new buffer, at the offset of the block above |
| DiffReadList.FindLastMet | src/nvim/diff.c:1281-1285 | the last block the change reaches |
| DiffReadList.MeetNode | src/nvim/diff.c:1276-1341 | the blocks that a change meets become one |
| DiffReadList.NewNode | src/nvim/diff.c:1342-1359 | a change that meets no block gets a block of its own |
| DiffReadList.ReadDiff | src/nvim/diff.c:1181-1374 | the linked list becomes the list that reading all changes gives |
| DiffLookup.FindBlock | src/nvim/diff.c:1460-1465 | the first block that does not end above the line |
| DiffLookup.DiffEqualEntry | src/nvim/diff.c:1541-1565 | whether two buffers have the same lines in the block |
| DiffLookup.CheckLine | src/nvim/diff.c:1424-1532 | the status of a line: changed, inserted, or the number of filler lines |
| DiffLookup.DiffSetTopline | src/nvim/diff.c:1655-1755 | the top line and filler lines of the bound window |
| DiffLookup.DiffGetCorrespondingLine | src/nvim/diff.c:2463-2534 | the lookup with a running offset |
| DiffLookup.DiffLnumWin | src/nvim/diff.c:2538-2583 | the lookup for windows |
| DiffGet.ReplaceLinesIs | src/nvim/diff.c:2247-2272 | the lines of a block are replaced by those of the source, unless the text is one empty line that is not among them |
| DiffGet.TakesIs | src/nvim/diff.c:2190-2199 | the tests of the loop take a block if and only if it has a line in the range or, having no lines, is just below a line of the range that is not the last |
| DiffGet.AtCursorTakes | src/nvim/diff.c:2149-2161 | without a range, the block at the cursor line or above it is taken, or one without lines just above the cursor line; at the end of the buffer, if there is no difference at the cursor, one without lines below the last line |
| DiffGet.GetBlocks | src/nvim/diff.c:2188-2336 | if the range cuts no block, the blocks left are exactly those that the range does not take, moved by the lines added above them |
| DiffGet.GetText | src/nvim/diff.c:2188-2336 | if the range cuts no block, the lines of exactly the blocks that the range takes are replaced, if and only if the loop never takes a real empty line for an empty buffer |
| DiffGetAll.TakeAll | src/nvim/diff.c:2188-2336 | taking all blocks, none of them cut by the range, leaves none, and makes the target equal to the source if and only if no block is met while the target is a single empty line outside it |
| DiffGetAll.SampleLost | src/nvim/diff.c:2247-2272 | a target of two lines that does not become the source |
| DiffGetAll.GetFits | src/nvim/diff.c:2188-2336 | whichever blocks are taken, if the range cuts none of them, the list that is left fits the new text, lines outside blocks staying equal if they were, unless the loop takes a real empty line for an empty buffer |
| DiffGetTurn.PartMeans | src/nvim/diff.c:2202-2245 | which lines of a block a range takes: in the buffer of the command those of both, in the other one those at the same distance from the top |
| DiffGetTurn.GetPutMeans | src/nvim/diff.c:2188-2336 | a block that the range takes has its turn, one that it does not take is left alone, and nothing is done past the range |
| DiffGetTurn.GetPutNone | src/nvim/diff.c:2188-2336 | a range that takes no block changes neither list nor text |
| DiffGetCut.RemovedList | src/nvim/diff.c:2301-2303 | the adjustment of marks for an entry that was taken out moves the later entries by the lines added, and changes nothing else |
| DiffGetCut.MarkedIs | src/nvim/diff.c:301-382 | what it does to the entry at hand, if that stays, in all cases |
| DiffGetCut.KeptList | src/nvim/diff.c:243-430 | what it does to the list then: later entries move, the next one is merged in if they touch, the entry goes if it has no lines left |
| DiffGetCut.TurnText | src/nvim/diff.c:2247-2272 | the lines of the target that the range takes are replaced by those of the source, unless a real empty line is taken for an empty buffer |
| DiffGetCut.TurnFits | src/nvim/diff.c:2196-2329 | after a turn, for any range and any number of buffers, the list fits the buffers if and only if the entry is rightly taken out, or shrunk by as many lines as it was over-counted |
| DiffGetKeeps.TurnFaithful | src/nvim/diff.c:2196-2329 | then lines outside the blocks are the same in all buffers if they were before, unless the next block was merged in |
| DiffGetRuns.RunFits | src/nvim/diff.c:2188-2336 | after any run of such turns the list fits the buffers and, if none merged a block, their text, and no entry in use left the list meanwhile |
| DiffGetRuns.RunOneFits | src/nvim/diff.c:2188-2336 | for a range with lines of one block, the list fits after the command if and only if the turn is right |
| DiffGetRuns.RunIsGet | src/nvim/diff.c:2188-2336 | if the range cuts no block and only two buffers are in the diff, the loop takes each block whole |
| DiffGetSamples.KeptWrongly | src/nvim/diff.c:2316-2323 | lines 2 to 5 of a block of five lines are fetched: the text is right, but the entry that stays is too long in the other buffer |
| DiffGetSamples.RemovedWrongly | src/nvim/diff.c:2277-2298 | lines 1 to 4 of that block are fetched: the entry is taken out of the list, although the block still differs |
| DiffGetSamples.RemovedCut | src/nvim/diff.c:2219-2298 | with two buffers, that happens whenever no line of the source is skipped, and is wrong whenever not all of the block was replaced |
| DiffGetSamples.ThirdDiffers | src/nvim/diff.c:2274-2323 | a whole block is fetched from the second of three buffers, after which the list does not fit |
| DiffGetSamples.FewerFromTop | src/nvim/diff.c:306-323 | when a whole block is replaced by fewer lines but another buffer differs, the list fits if and only if the target had twice as many |
| DiffGetSamples.MoreFromTop | src/nvim/diff.c:363-375 | when first lines of a block are copied over fewer lines, the list does not fit, but for a merge and the end of the buffer |
| DiffGetList.Skips | src/nvim/diff.c:2202-2245 | the branches compute the lines that the range takes |
| DiffGetList.EqualsElsewhere | src/nvim/diff.c:2277-2287 | whether the block has the same lines in the source and in all buffers but the target |
| DiffGetList.DeleteBlockLines | src/nvim/diff.c:2247-2255 | the lines are deleted, and it is known whether the last of them was the only line |
| DiffGetList.CopyBlockLines | src/nvim/diff.c:2257-2272 | the lines are copied one by one |
| DiffGetList.UpdateList | src/nvim/diff.c:2274-2323 | the node is taken out or stays, marks are adjusted, and the number of lines is set again |
| DiffGetList.TakeTurn | src/nvim/diff.c:2196-2329 | one turn on the linked list and the buffers is the turn specified |
| DiffGetList.ExDiffGetPut | src/nvim/diff.c:2188-2336 | for any range and any buffers, the linked list and the target become what the specified loop says |
| TextLines.Buffer.MlAppend | src/nvim/memline.c:1862-1872 | the line is inserted, or nothing happens for a line that does not exist |
| TextLines.Buffer.MlDelete | src/nvim/memline.c:2358-2400 | the line is deleted; the only line is replaced by an empty one |
| Highlights.LineInfo.GetAttr | src/nvim/buffer.c:5130-5150 | for columns that do not decrease, the cached attribute is that of a fresh combination of all items covering the column |
| Highlights.LineInfo.StartLine | src/nvim/buffer.c:5110-5118 | the cache starts out empty |
| Highlights.DrawLine | src/nvim/buffer.c:5120-5150 | over a whole line, every attribute is that of a fresh combination |
| Highlights.OutsideItem | src/nvim/buffer.c:5136-5147 | an item has no part in the attribute of a column left or right of it, wherever it stands in the list |
| Highlights.TopItem | src/nvim/buffer.c:5138-5140 | a later item is combined over the earlier ones, at all its columns |
| Highlights.HlVector.RemoveSource | src/nvim/buffer.c:5042-5053 | compacting in place keeps exactly the items of other sources, in order |
| Highlights.BufferHighlights.ClearLine | src/nvim/buffer.c:5037-5060 | the line loses the source's items, and its entry if none is left; other lines keep theirs |
| Marks.SignList.SignMarkAdjust | src/nvim/buffer.c:4918-4933 | every sign is where the adjustment takes its line |
| Marks.BufhlMarkAdjust | src/nvim/buffer.c:5074-5101 | in whatever order lines are visited, every line keeps its highlights that comes to a place no other line comes to |
| Marks.DeletionFollows | src/nvim/mark.c:864-875 | the adjustment for deleted lines takes each remaining line of any text to where it is then, and signs of the others to the line where they were |
| Marks.InsertionFollows | src/nvim/mark.c:864-875 | so does the one for inserted lines, in either form |
| MoveCopy.MovePermutes | src/nvim/ex_cmds.c:736-796 | the new text is a permutation of the old one, and each line is where the permutation says |
| MoveCopy.MovedWhere | src/nvim/ex_cmds.c:715-719 | the moved lines stay together, just below the line given, and the others keep their order |
| MoveCopy.AdjustmentsMove | src/nvim/ex_cmds.c:757-786 | the three adjustments together are that permutation, and no two lines meet after any of them |
| Marks.ImageSize | src/nvim/buffer.c:5074-5101 | an adjustment leaves fewer places than there were lines if and only if two lines come to the same place |
| MoveCopy.AwayMeets | src/nvim/ex_cmds.c:761-773 | marks on lines below the text meet those of moved lines exactly when they are where these are kept meanwhile |
| MoveCopy.MovedKeysSize | src/nvim/ex_cmds.c:757-786 | after all three adjustments there are fewer lines with highlights than before if and only if that is so |
| MoveCopy.SampleMeets | src/nvim/ex_cmds.c:761-773 | highlights on a line of a text of three lines and on the line below the text, of which a move keeps one |
| MoveCopy.OverBackApart | src/nvim/ex_cmds.c:775-786 | the other two adjustments never make marks meet |
| MoveCopy.Document.MarkAdjust | src/nvim/mark.c:876-925 | signs and highlights are adjusted, unless there is nothing to do |
| MoveCopy.Document.CopyAway | src/nvim/ex_cmds.c:749-755 | the lines stand twice in the text, although they shift while they are copied upwards |
| MoveCopy.CrowdedIs | src/nvim/ex_cmds.c:761-773 | a line of the text can lose its highlights only if it is moved and there are highlights where it is kept meanwhile |
| MoveCopy.Document.DoMove | src/nvim/ex_cmds.c:720-829 | the text is permuted, signs stay with their lines, and so do the highlights of every line that meets no other below the text; some are lost if and only if two meet there; the cursor is on the last moved line, and the moved lines are the text operated on; a move into itself changes nothing |
| MoveCopy.CopyLoop | src/nvim/ex_cmds.c:858-875 | the loop ends with the lines copied, for all three placements |
| MoveCopy.ExCopy | src/nvim/ex_cmds.c:834-880 | text, cursor, signs, highlights and the text operated on after the command |
| MoveCopy.CopyKeeps | src/nvim/ex_cmds.c:834-880 | each old line is where its marks are, and each new line is a copy |
| Retab.RetabbedLooks | src/nvim/ex_cmds.c:622-694 | for every line and all tab stops, the new line looks with the new tab stop as the old one did with the old, has the same other characters, and no TAB with 'expandtab' |
| Retab.RemadeLooks | src/nvim/ex_cmds.c:638-683 | the same for one run of white space |
| Retab.TabStops | src/nvim/charset.c:1240-1242 | a TAB ends at the first tab stop past its start |
| Retab.Fewest | src/nvim/ex_cmds.c:641-652 | without 'expandtab', no white space that fills the columns is shorter than what is made |
| Retab.MadeTabsFirst | src/nvim/ex_cmds.c:641-652 | it has as many TABs as there is room for, and then spaces |
| Retab.RemadeFewest | src/nvim/ex_cmds.c:638-683 | white space with a TAB, or with `!` more than one character of it, becomes as short as can be with its TABs first, or has no TAB with 'expandtab'; other white space stays |
| Retab.RetabbedFewest | src/nvim/ex_cmds.c:622-694 | the same of each run of white space of every line, the rest of which is remade on its own |
| Retab.NothingToDo | src/nvim/ex_cmds.c:627-638 | without `!`, only white space with a TAB is touched |
| Retab.Fill | src/nvim/ex_cmds.c:641-652 | a tab for every tab stop in the columns to fill, and spaces after the last one |
| Retab.EndRun | src/nvim/ex_cmds.c:638-685 | the white space is remade in the line, and nothing else changes |
| Retab.RetabLine | src/nvim/ex_cmds.c:622-694 | the loop, which replaces white space while it scans the line, ends with all white space remade |
| Retab.ExRetab | src/nvim/ex_cmds.c:590-712 | all lines of the range are remade, the others are unchanged; a negative tab stop is an error |
| Columns.BorderIsRowEnd | src/nvim/charset.c:1160-1186 | the columns at the border are the last columns of the rows |
| Columns.FastLoop | src/nvim/charset.c:1225-1275 | the fast loop finds the running sum of sizes at the position |
| Columns.GeneralLoop | src/nvim/charset.c:1276-1297 | so does the general loop |
| Columns.FoundOnce | src/nvim/charset.c:1221-1297 | there is one such result: the loops agree |
| Columns.Getvcol | src/nvim/charset.c:1199-1320 | first, cursor and last column of the character |
| Coladvance.NotSplit | src/nvim/charset.c:1253-1262 | a character of two cells leaves one blank and goes to the next row exactly if it would start in the last column of a row, and is split all the same only if further rows have one column |
| Coladvance.NotWrapped | src/nvim/charset.c:1240-1251 | every other character starts where the one before ends, and a TAB reaches to the next tab stop or takes two cells |
| Coladvance.FoundThere | src/nvim/charset.c:1199-1320 | at the first byte of a character, the scan finds its first column and where the next one starts |
| Coladvance.CursorLine.Scan | src/nvim/cursor.c:138-145 | the scan stops at the first character past the column; `head` tells of any character before it |
| Coladvance.CursorLine.AppendSpaces | src/nvim/cursor.c:165-175 | the line looks as before, with blanks at its end, and reaches the column |
| Coladvance.CursorLine.BreakTab | src/nvim/cursor.c:176-198 | the line looks as before, and there is a character at every column of the TAB |
| Coladvance.CursorLine.AdjustPosition | src/nvim/mbyte.c:2250-2267 | the cursor goes to the first byte of its character, and not to the right half of a wide one |
| Coladvance.CursorLine.StepBack | src/nvim/cursor.c:137-157 | the cursor goes to the character that covers the column, or to the end of the line, which counts as starting one column further on if any character so far left a blank |
| Coladvance.CursorLine.Advance | src/nvim/cursor.c:87-236 | where the cursor goes in every mode, how many columns past the start of the character, and whether the column counts as reached |
| Coladvance.CursorLine.AdvanceToEnd | src/nvim/cursor.c:104-217 | with MAXCOL the cursor is on the last character or past it, and in its last column only if it has one byte |
| Coladvance.CursorLine.ColadvanceForce | src/nvim/cursor.c:50-62 | with virtual editing the cursor is in the very column of a line that looks as before; it fails exactly after breaking a TAB; otherwise the line is unchanged and the position covers the column |
| Coladvance.CursorLine.Getvpos | src/nvim/cursor.c:242-245 | the line is unchanged, and the position covers the column or is at the end of the line; with virtual editing and characters of one cell it is the very column |
| Coladvance.DividesByZero | src/nvim/cursor.c:118-134 | in a window without a column for text, every wanted column leads to a division by zero |
| Coladvance.LastRow | src/nvim/cursor.c:118-136 | a column below the last row of a wrapped line becomes the last column of that row |
| Coladvance.BeyondIs | src/nvim/cursor.c:118-136 | a wanted column is below the last row if and only if a row starts past the end of the line and not past it; in Insert mode just past the end will do |
| Coladvance.InTabMeans | src/nvim/cursor.c:159-198 | a TAB is broken, and the verdict negative, exactly if the line reaches past the column and no character has just that column |
| Coladvance.LandsOnCover | src/nvim/cursor.c:87-245 | going to any column of a character leads to that character |
| Coladvance.RightHalf | src/nvim/mbyte.c:2250-2267 | with virtual editing the cursor is in the very column, but on the first one of a wide character for its second |
| Coladvance.WronglyReached | src/nvim/cursor.c:139-157 | a column counts as reached wrongly exactly when it is the one after the first of a character that leaves no blank itself, below an earlier one that does |
| Coladvance.HeadIsKept | src/nvim/cursor.c:139-157 | column 6 counts as reached at a TAB that starts in column 5, and is where the scan stops |
| Nesting.FirstBranchesOnly | src/clint.py:1533-1589 | for all lines: if directives open and close as many parentheses and have no braces, the blocks as they will be are those of the first branches alone |
| Nesting.NestedConditionals | src/clint.py:1533-1589 | after properly nested conditionals the stack is that of the first branches alone, and no conditional is open |
| Nesting.KindMeans | src/clint.py:1554-1575 | which words after a `#` open, continue and end a conditional, whatever white space and text is around them |
| Nesting.NoDirective | src/clint.py:1554-1575 | a line that does not start with `#` is not a directive |
| Nesting.TokensCount | src/clint.py:1632-1661 | a line that never closes more than is open changes the number of open blocks by its opening braces less its closing ones |
| Nesting.TokensBalanced | src/clint.py:1632-1661 | a line with balanced braces leaves all blocks as they are |
| Nesting.TokensBelow | src/clint.py:1657-1661 | as many closing braces as there are blocks, or more, leave none open |
| Nesting.TokenOpens | src/clint.py:1636-1643 | an opening brace opens a block without open parentheses |
| Nesting.ParensCounted | src/clint.py:1605-1661 | if its braces are balanced, the parentheses of a line are counted for the block it is in, and the other blocks stay |
| Nesting.DeepCopy | src/clint.py:1557-1571 | equal blocks in new objects |
| Nesting.NestingState.SeenOpenBrace | src/clint.py:1524-1531 | whether the innermost block has had its brace |
| Nesting.NestingState.UpdatePreprocessor | src/clint.py:1533-1589 | stack and checkpoints after a line, and no block shared by the stack and a checkpoint |
| Nesting.NestingState.ConsumeToken | src/clint.py:1632-1661 | one brace, semicolon or closing parenthesis |
| Nesting.NestingState.Update | src/clint.py:1591-1661 | the whole state after a line, although objects are changed in place |
| Brackets.FindEndOfExpressionInLine | src/clint.py:1051-1071 | the first place at which the depth is zero, or the depth at the end |
| Brackets.CloseExpression | src/clint.py:1074-1115 | the place past the end of the shortest balanced text that starts there, or none |
| Brackets.FindStartOfExpressionInLine | src/clint.py:1118-1140 | the same from the right |
| Brackets.ReverseCloseExpression | src/clint.py:1143-1191 | the start of the shortest balanced text that ends there, or none |
| Brackets.BracketedSuffix | src/clint.py:1118-1140 | a balanced text without balanced beginnings has no balanced ends either |
| Brackets.ThereAndBack | src/clint.py:1074-1191 | looking for the start from the end found leads back, across any number of lines |
| Brackets.BackAndThere | src/clint.py:1074-1191 | looking for the end from the start found leads to just past the closing bracket |
| Brackets.NoEnd | src/clint.py:1106-1115 | if no end is found, there is none |
| Brackets.NoStart | src/clint.py:1180-1191 | if no start is found, there is none |

## Left out

- Running diff and patch, temporary files, and parsing of the diff output: changes are data with the line numbers and counts of src/nvim/diff.c:1248-1262.
- Redrawing, folds, the cursor after `:diffget` and `:retab`, undo (saving for undo is taken to succeed) and autocommands.
- Freeing of memory: nodes taken out of a list are just not reachable from it any more.
- Entries of buffers that are not in the diff: the original leaves them uninitialised in a new node, here they are 0.
- A buffer without lines has one empty line. `Aligned` counts that line like any other, as the line count of the original does.
- Closed folds in the number of filler lines and in scroll binding.
- DiffGetList.ExDiffGetPut: runs in which an entry that the loop still uses is taken out of the list while marks are adjusted (`Lasts` excludes them); what the original does then is not defined. `RunFits` and `RunIsGet` show that this does not happen as long as turns leave the list right, or take blocks whole.
- DiffGetCut.TurnFits: blocks without lines in any buffer, which no list has after `diff_mark_adjust` or after reading the diff output, and texts of which a real empty line is taken for an empty buffer; what becomes of the text then is in DiffGet.GetText.
- DiffGetRuns.RunFits: only sufficient for several turns, as a later turn can change an entry again that was left wrong; for each turn, and for commands with one turn, the condition is exact.
- DiffGetKeeps.TurnFaithful: nothing about the text when the next block is merged into the one at hand.
- DiffReadResults.ReadFaithful: that no end is lost is only sufficient, since lines that are lost can be equal by chance; ReadAligned and ReadCoversAll are exact.
- DiffLines.RoundTrip: stated for lines outside all blocks; inside a block the original maps several lines to one (InsideBlock), and just below filler lines it depends on the other cursor (FillerStays).
- LineCompare.DiffCmp: case folding and the length of characters in bytes are parameters, of which only what every encoding guarantees is used; the comparison with 'icase' alone is that of a library.
- MoveCopy.Document.MarkAdjust: marks other than signs and highlights (named marks, jump list, quickfix and so on) follow the same rule in src/nvim/mark.c:876-925, except that some are deleted with their line. With `:lockmarks`, which is left out, signs and highlights stay where they are.
- Marks.BufhlMarkAdjust: the items of deleted lines are dropped instead of freed.
- Retab.ExRetab: interrupts are left out; with 'list' off as the command itself ensures.
- Columns.GeneralLoop: 'linebreak', 'showbreak' and 'breakindent' are off; double-byte encodings are left out.
- Coladvance.CursorLine.Advance: adding spaces to lines with characters of more than one cell, which src/nvim/cursor.c:176-198 breaks into bytes. MAXCOL is AdvanceToEnd, without the wanted column that it also sets.
- Coladvance.CursorLine.ColadvanceForce: the same, as it adds spaces with virtual editing.
- Coladvance.CursorLine.Getvpos: with virtual editing, wrapped windows without a column for text, in which the original divides by zero, and windows narrower than their line numbers, in which it counts rows of negative width.
- Nesting.NestingState.Update: inline assembly, which is noted in a block and has no part in pushing and popping blocks (src/clint.py:1611-1626).
- The style checks of the linter, the format of status lines, substitution and buffer management.
