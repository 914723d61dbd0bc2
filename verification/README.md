# A model of the Windows console host's algorithms

The project models the parts of the console host and its helper libraries that are algorithms or protocols, and
proves what they are for. Each module follows one part of the source.

| modules | what they model |
|---|---|
| `Skyline`, `SkylinePacker`, `SkylineRects`, `SkylineNodes` | the skyline rectangle packer: a skyline of corners as a value, the context with its pool of linked nodes, the packing of whole arrays, and how many nodes it takes |
| `Viewport`, `ScreenScroll` | inclusive rectangles with their walks, and the scrolling of a region inside a screen buffer |
| `IntervalTree` | the index over text ranges and its searches |
| `VtWriter`, `VtNewlines`, `Utf16`, `Utf8`, `VtText`, `PtyLifecycle` | a pseudoconsole's output: corked writers over two buffers, the translation of line feeds, the encodings, runs of cells, and start-up against close and resize |
| `CommandLine`, `Numerals`, `ConsoleArguments` | printing a command line, reading one, and the line that launches a pseudoconsole host |
| `InputQueue`, `InputRuns`, `InputText` | the input buffer: events with repeat counts and code pages, whole runs of reads and writes, and text for narrow readers |
| `ConsoleFill`, `DbcsOutput`, `Utf8Stream` | filling cells with glyphs of one or two columns, and narrow output, in a double-byte code page or UTF-8, cut into calls |
| `CommandHistories`, `HistoryLists` | the history of one program, and the list of all histories |
| `CookedLayout`, `CookedRows`, `CookedRead` | the line editor's layout in rows, column by column, and the page it is shown on |

`Basics` holds what several modules share. A class has the fields that the source's object has, and ghost fields or functions for their abstract value. Loops are
loops. A specification is a function or predicate on values, and the lemmas beside it say what it means. Every lemma
switches automatic induction off; an inductive proof calls itself.

## What turned out not to hold as promised

Every one of these has a lemma with the failing input or the exact condition, and the code is modelled as it is.

* The packer's header says that quantized widths never run out of nodes. With at least as many nodes as columns that is
  so (`Context.NodesSuffice`), and in a target of one row whose width is less than the nodes and a quantum
  (`NodesEnough`). In every other target, with either heuristic, unit squares use up all the nodes while the next one
  still fits (`RunOut`).
* The packer's waste for a window that starts inside a floor-level segment counts columns outside the window
  (`SurveyInexact`). It is never less than the area below the window, and is that area exactly under a condition on the
  heights at the window's far end (`SurveyExactIff`).
* `ScrollRegion` leaves early when the source misses the clip, although part of the clip may be a target. It behaves as
  its description says if and only if that exit is harmless (`MeetsDescriptionIff`).
* Over buffer positions the interval tree's center can lie before all of its intervals, and the tree's own check fails
  for every tree with a right child, because `numeric_limits` is not specialised for positions (`MiddleBetweenIff`,
  `PointLimitIff`). Where that cannot happen the tree is never deeper than it has intervals (`Build`,
  `PositionsDivisibleIff`).
* A narrow peek that ends within a character leaves the rest of it in the queue twice (`PeekKeepsIff`); a narrow read of
  text leaves part of a surrogate pair to be read again (`TextCache.Consume`); two merged key events read as the two
  only under a condition on their counts and codes (`MergedReadsIff`). A run of reads and writes conserves the events
  exactly if every merge meets such a condition and no read fails with something set aside (`RunConservesIff`).
* Splitting narrow output between a lead byte and a control character loses the lead byte (`CutAnywhereIff`). A call
  reports too few bytes if a pair is read as a character that takes one byte, such as the default for an unassigned pair
  (`ShortCountExample`); it reports its own bytes exactly if every character is converted back to as many bytes as it
  was read from (`WriteConsoleA`, and `WriteAll` for many calls). If a completed pair cannot be converted, the call loses
  its last byte and its text starts one place too late (`WriteConsoleA`).
* The history lets a duplicate in if the command displayed last was removed (`CommandHistory.Add`).
* The line editor skips a wide glyph that comes to the last column of a row where a segment starts or after a control
  character, and with it every wide glyph that directly follows (`LayShowsIff`, `LostExample`); so a glyph behind the
  cursor can disappear (`LayInPartsIff`, `SqueezeExample`), and a redisplay shows the whole buffer exactly if there is no
  such glyph in any of its three segments (`Redisplay`). The layout never ends on a page of one column with a control
  character in the text (`LoopEndsIff`).

## Model

| member | source | states |
|---|---|---|
| Skyline.PeakLeast | oss/stb/stb_rect_pack.h:287-335 | with PeakBounds, the height a window rests at is the least upper bound of the column heights under it |
| Skyline.PeakBounds | oss/stb/stb_rect_pack.h:287-335 | no column under a window is higher than the height it rests at |
| Skyline.PeakAttained | oss/stb/stb_rect_pack.h:287-335 | the height a window rests at is that of some column under it |
| Skyline.SurveyExactIff | oss/stb/stb_rect_pack.h:287-335 | the walk over the nodes finds exactly that height, and never less waste than the area below; exactly the area if and only if the window starts on a corner or above the floor, or each later segment reaching into the columns counted too many is on the floor or higher than all before it, the last one on the floor |
| Skyline.SurveyInexact | oss/stb/stb_rect_pack.h:318-328 | a skyline and a window for which the reported waste is larger than the area |
| Skyline.SlideLeft | oss/stb/stb_rect_pack.h:355-387 | a window slid left to the start of its segment never rests higher, so trying node positions is enough |
| Skyline.RaisedWellFormed | oss/stb/stb_rect_pack.h:461-503 | replacing the covered corners by the new one leaves corners strictly increasing from 0 to the width |
| Skyline.RaisedHeight | oss/stb/stb_rect_pack.h:461-503 | a placement raises exactly the columns from its x to its right edge, or to the end of the segment it starts in, and no other |
| SkylinePacker.Context.constructor | oss/stb/stb_rect_pack.h:261-285 | a fresh context is well formed: two active nodes, all others free, nothing placed |
| SkylinePacker.Context.SetupHeuristic | oss/stb/stb_rect_pack.h:229-239 | sets the heuristic and keeps the context well formed |
| SkylinePacker.Context.SetupAllowOutOfMem | oss/stb/stb_rect_pack.h:241-259 | the alignment is 1, or the least one for which the nodes cover the width |
| SkylinePacker.Context.NodesSuffice | oss/stb/stb_rect_pack.h:141-149 | with as many nodes as columns there is always a free node and widths are not rounded |
| SkylinePacker.Context.FindMinY | oss/stb/stb_rect_pack.h:287-335 | the result is the height the window rests at, and a waste that is never less than the area below it and equal to it exactly under that condition |
| SkylinePacker.Context.FindBestPos | oss/stb/stb_rect_pack.h:343-443 | the position is the best one of all columns for the rounded width under the heuristic in force; none is found, or it is too high, only if no place below 2^30, where the search starts, fits |
| SkylinePacker.Context.Splice | oss/stb/stb_rect_pack.h:461-503 | the list surgery recycles the covered nodes, keeps both lists linked, disjoint and complete, and makes the skyline exactly the raised one |
| SkylinePacker.Context.Place | oss/stb/stb_rect_pack.h:461-518 | the placed rectangle lies above the old skyline and below the new one, inside the target, and nothing else changes |
| SkylinePacker.Context.PackRectangle | oss/stb/stb_rect_pack.h:445-521 | a packed rectangle is at the chosen position and kept disjoint from all others; a failure changes nothing and happens only without a free node or without any place that fits |
| SkylinePacker.PlacementRaises | oss/stb/stb_rect_pack.h:461-503 | the skyline never sinks, and over the new rectangle it is exactly its top |
| SkylinePacker.PlacementSafe | oss/stb/stb_rect_pack.h:445-503 | what was under the skyline stays under it and does not overlap the new rectangle |
| SkylinePacker.PlacementKeepsSafe | oss/stb/stb_rect_pack.h:445-503 | all placed rectangles stay inside the target, under the skyline and pairwise disjoint |
| SkylineRects.Sort | oss/stb/stb_rect_pack.h:524-540 | the array is rearranged by a permutation into the comparator's order |
| SkylineRects.UnsortRestores | oss/stb/stb_rect_pack.h:550-569 | sorting by the stored index undoes the first sort, whatever order equal rectangles took |
| SkylineRects.RestRises | oss/stb/stb_rect_pack.h:445-503 | a window never rests lower on a higher skyline |
| SkylineRects.FitsNowhereStays | oss/stb/stb_rect_pack.h:455-458 | a rectangle that fits nowhere still fits nowhere after later placements |
| SkylineRects.OutcomeStays | oss/stb/stb_rect_pack.h:542-580 | what holds of a rectangle when it was dealt with still holds at the end of the call |
| SkylineRects.PackOne | oss/stb/stb_rect_pack.h:552-565 | an empty rectangle goes to the origin; another goes to the place that the heuristic chooses for its rounded width on the skyline as it is, which is raised there; it is given up only if every node is in use or no place fits; sizes are unchanged |
| SkylineRects.ArrangeAndPack | oss/stb/stb_rect_pack.h:546-566 | rectangles are placed in order of height, each one tagged with where it came from |
| SkylineRects.SetFlags | oss/stb/stb_rect_pack.h:571-580 | the flag is 1 exactly for a rectangle that was not given up, and the result is true exactly if all flags are |
| SkylineRects.PackRects | oss/stb/stb_rect_pack.h:542-580 | over any sequence of calls: original order, sizes unchanged, every packed rectangle in the target and disjoint from all others of all calls, and the result 1 exactly if all were packed; the rectangles are dealt with taller first, then wider, each one going where the heuristic chooses on the skyline that the ones before it left |
| SkylineNodes.RowChoice | oss/stb/stb_rect_pack.h:343-387 | on a row of unit squares the next free column is the only bottom-left choice |
| SkylineNodes.RowBestFit | oss/stb/stb_rect_pack.h:388-443 | ... and the only choice of best fit, where nothing is wasted |
| SkylineNodes.RunOut | oss/stb/stb_rect_pack.h:249-258 | with either heuristic, in every target wider than its number of nodes that is at least 2 high, or 1 high and wide enough for a quantum behind as many squares, unit squares use up all nodes while another one still fits |
| SkylineNodes.NodesEnough | oss/stb/stb_rect_pack.h:249-258 | in all other targets, nothing fits any more once the nodes are used up |
| Viewport.IntersectHas | src/types/viewport.cpp:622-642 | the intersection holds exactly the common points, if either operand is a buffer's rectangle |
| Viewport.IntersectInside | src/types/viewport.cpp:622-642 | a valid intersection lies within both operands |
| Viewport.SubtractExact | src/types/viewport.cpp:655-789 | the remaining rectangles are valid, pairwise apart, and hold exactly the points of the one that are not in the other |
| Viewport.WalkIsNext | src/types/viewport.cpp:289-301 | clamped offset arithmetic steps to the next cell in reading order, and stays on the last one |
| Viewport.Walk | src/types/viewport.cpp:289-301 | the step and whether there was one |
| Viewport.NextPasses | src/types/viewport.cpp:368-386 | a step passes the cell it leaves and no other, in either direction, so a walk visits every cell once |
| ScreenScroll.ReadAheadIntact | src/host/output.cpp:93-113 | the cell that is read before the current one is written has not been overwritten yet, for any overlap |
| ScreenScroll.CopyAdvances | src/host/output.cpp:93-113 | writing one cell and stepping on extends the copied part by that cell; after the last one the copy is complete |
| ScreenScroll.FinalCell | src/host/output.cpp:336-430 | copying and then filling what the target left uncovered gives the promised cell at every point |
| ScreenScroll.Screen.ScrollRows | src/buffer/out/textBuffer.cpp:808-885 | moving rows in the right order copies them as they were |
| ScreenScroll.Screen.WalkCopy | src/host/output.cpp:93-113 | the in-place walk copies the source as it was, and changes nothing else |
| ScreenScroll.Screen.CopyRectangle | src/host/output.cpp:64-118 | both ways of copying leave the source's old content in the target and everything else unchanged |
| ScreenScroll.Screen.FillAll | src/host/output.cpp:413-430 | exactly the points of the remaining rectangles are filled |
| ScreenScroll.Screen.ScrollRegion | src/host/output.cpp:304-431 | every cell of the buffer afterwards, for every rectangle, clip, offset and overlap, written out on coordinates: the old source cell, the given character and attribute or the default, or unchanged; no cell outside a given clip changes |
| ScreenScroll.Screen.ScrolledMeans | src/host/output.cpp:304-431 | the same cells as the description gives them, in terms of the rectangles as they were given |
| ScreenScroll.MeetsDescriptionIff | src/host/output.cpp:294-347 | copying, filling and pasting through two more buffers gives the same screen for every content, if and only if the early exit is harmless |
| ScreenScroll.EarlyExitExample | src/host/output.cpp:340-347 | a scroll into a clip that the source misses copies nothing |
| IntervalTree.MakeInterval | oss/interval_tree/IntervalTree.h:15-42 | the ends of an interval are in order, however they are given |
| IntervalTree.SortByStart | oss/interval_tree/IntervalTree.h:134-145 | sorted by start, and a permutation |
| IntervalTree.Deal | oss/interval_tree/IntervalTree.h:169-184 | the three lists hold the intervals before, across and after the center, in order |
| IntervalTree.DealConserves | oss/interval_tree/IntervalTree.h:169-184 | every interval is in exactly one of the three lists |
| IntervalTree.BuildInner | oss/interval_tree/IntervalTree.h:150-209 | a node that is split has all the intervals, sorted lists and ordered children, and if all centers divide, no more levels than intervals |
| IntervalTree.Build | oss/interval_tree/IntervalTree.h:118-210 | every input, minimum and depth ends in a tree with exactly the given intervals, sorted at every node, children on their sides, and no deeper than the depth, also when the counter wraps; if the middle of any two ends lies between them, no deeper than there are intervals |
| IntervalTree.IntegersDivisible | oss/interval_tree/IntervalTree.h:129-133 | integers meet that condition |
| IntervalTree.PositionsDivisibleIff | oss/interval_tree/IntervalTree.h:129-133 | positions meet it exactly if no stop is on the row below a start and left of it |
| IntervalTree.ChildrenSmallerIff | oss/interval_tree/IntervalTree.h:150-209 | both children are strictly smaller exactly if the center lies between the least start and the greatest stop |
| IntervalTree.MiddleBetweenIff | oss/interval_tree/IntervalTree.h:129-133 | for buffer positions it does, unless the ends are on adjacent rows and the stop is left of the start |
| IntervalTree.MiddleBetweenIntegers | oss/interval_tree/IntervalTree.h:129-133 | for integers it always does |
| IntervalTree.WrappedMatchDescends | oss/interval_tree/IntervalTree.h:129-209 | a range over a line break that is handed down whole |
| IntervalTree.NoMatchLost | oss/interval_tree/IntervalTree.h:214-231 | the pruned visit finds every interval that meets the query |
| IntervalTree.SearchesAgreeWithScan | oss/interval_tree/IntervalTree.h:234-285 | both searches return the multiset that a scan of the given intervals would, for every query, also with start after stop |
| IntervalTree.SearchesExact | oss/interval_tree/IntervalTree.h:234-285 | on rows and columns: each interval is found as often as it was given, exactly if it neither stops before the start nor starts after the stop; and as contained exactly if it does not start before the start and not stop after the stop |
| IntervalTree.FoundIffShared | oss/interval_tree/IntervalTree.h:234-260 | for a query whose start is not after its stop, an interval is found exactly if some position lies in both |
| IntervalTree.IsValidIff | oss/interval_tree/IntervalTree.h:335-383 | the tree's own check accepts exactly if every center with something to its right is below the upper limit |
| IntervalTree.TrueLimitPasses | oss/interval_tree/IntervalTree.h:335-383 | with a true upper limit the check accepts every tree that is built |
| IntervalTree.PointLimitIff | oss/interval_tree/IntervalTree.h:335-383 | with the default limit for positions a tree passes exactly if no node has a right child |
| VtWriter.VtIo.OpenWriter | src/host/VtIo.cpp:433-440 | one more writer holds the output back |
| VtWriter.VtIo.SubmitWriter | src/host/VtIo.cpp:458-471 | one writer less; the last one flushes |
| VtWriter.VtIo.AbandonWriter | src/host/VtIo.cpp:442-451 | a writer that was not submitted taints the batch |
| VtWriter.VtIo.FlushNow | src/host/VtIo.cpp:473-558 | the whole effect of a flush on buffers, flags, pending write and output |
| VtWriter.VtIo.BackupCursor | src/host/VtIo.cpp:560-567 | one save per batch |
| VtWriter.VtIo.WriteUTF8 | src/host/VtIo.cpp:569-572 | text goes to the end of the back buffer |
| VtWriter.FlushOutcome | src/host/VtIo.cpp:473-558 | nothing is left over, and the message is sent unless it is tainted, empty but for the save and restore, or the output is closed; the output stays open exactly if a wait for the last write did not fail and the write did not break the pipe, and a write is pending afterwards exactly if this one is |
| VtWriter.MessageShape | src/host/VtIo.cpp:473-567 | a message is its batch's writes in order; with a backup, one save where it first happened and the restore at the end |
| VtWriter.BatchOutcome | src/host/VtIo.cpp:433-567 | over every nesting of writers a batch is sent whole and once, or not at all, and leaves everything ready for the next |
| VtWriter.SentInOrder | src/host/VtIo.cpp:433-567 | over any run of batches the output receives exactly the messages that were not dropped, whole, once and in order |
| VtWriter.AllAreSent | src/host/VtIo.cpp:433-567 | if no wait fails and no write breaks the pipe, the output stays open and the messages sent are exactly those of the batches that say something and abandon no writer |
| VtWriter.FrontKept | src/host/VtIo.cpp:473-558 | no operation changes the front buffer during a pending write without waiting for it first |
| VtWriter.FrontKeptAlways | src/host/VtIo.cpp:473-558 | in every state of every run the buffer of a pending write is the one that was written |
| VtNewlines.Translate | src/host/VtIo.cpp:613-648 | the copying loop produces the translation defined character by character: a return is put in before a line feed exactly if the character before that is neither a return nor a line feed |
| VtNewlines.TranslationMeans | src/host/VtIo.cpp:611-648 | a terminal whose line feed keeps the column, given the translation, ends in the same state as one whose line feed returns, given the original, whatever the other characters do |
| VtNewlines.TranslationAdds | src/host/VtIo.cpp:611-648 | deleting the inserted returns gives back the input |
| Utf8.DecodedEncoded | src/host/VtIo.cpp:672-699 | decoding by section 3 of RFC 3629 returns exactly the characters that were encoded |
| Utf8.StandardExample | src/host/VtIo.cpp:672-699 | the octets of the first example in section 7 of RFC 3629 |
| Utf8.BeyondExample | src/host/VtIo.cpp:653-663 | a character beyond 16 bits: its surrogate pair and its octets |
| VtText.Sanitized | src/host/VtIo.cpp:399-431 | the result is never a control character or a surrogate, and is the character itself exactly if that is neither |
| VtText.Writer.WriteUCS2 | src/host/VtIo.cpp:672-699 | the bytes appended are the UTF-8 octets of the character, or of U+FFFD for a surrogate |
| VtText.Writer.WriteUTF16StripControlChars | src/host/VtIo.cpp:653-670 | writing run by run is the same as writing the text with its control characters made visible at once |
| VtText.VisibleReadsBack | src/host/VtIo.cpp:650-670 | the terminal decodes exactly that text and no control character |
| VtText.CellWriter.WriteInfos | src/host/VtIo.cpp:771-834 | every cell is shown as its glyphs, halves at the edges as blanks, each in its own attributes |
| VtText.CellIsPainted | src/host/VtIo.cpp:771-834 | a narrow printable cell is shown as its own character in one column, a leading half as its own in two, a half at the edge as a blank, a trailing one within the run as nothing, all in the cell's own attributes |
| VtText.NarrowRun | src/host/VtIo.cpp:771-834 | a run of narrow cells is shown as its characters, one to a column, each in its own attributes |
| VtText.ExpectedWidth | src/host/VtIo.cpp:771-834 | the glyphs written take the columns counted for the cells |
| VtText.AlignedIffPaired | src/host/VtIo.cpp:771-834 | every glyph is in its cell's column, and the run takes one column per cell, exactly if leading and trailing halves are paired |
| PtyLifecycle.VtIo.Initialize | src/host/VtIo.cpp:83-137 | initialisation works once |
| PtyLifecycle.VtIo.StartIfNeeded | src/host/VtIo.cpp:154-216 | start-up begins only from the initialised state |
| PtyLifecycle.VtIo.FinishStart | src/host/VtIo.cpp:216-243 | it ends in running exactly if it is still starting when it has the lock again |
| PtyLifecycle.VtIo.SendCloseEvent | src/host/VtIo.cpp:300-322 | a close while starting fails the start-up; later ones ask for the close once |
| PtyLifecycle.SignalThread.ConnectConsole | src/host/PtySignalInputThread.cpp:67-78 | hands over what arrived early, once |
| PtyLifecycle.SignalThread.DoResizeWindow | src/host/PtySignalInputThread.cpp:171-187 | a size is stored before the console is connected and applied afterwards |
| PtyLifecycle.SignalThread.DoShowHide | src/host/PtySignalInputThread.cpp:212-233 | the same for the visibility |
| PtyLifecycle.TakeKeeps | src/host/VtIo.cpp:154-322 | every step keeps the invariant: at most one close, running exactly if start-up has returned successfully, nothing passed on before the console is connected, and afterwards the last size and visibility are those last received |
| PtyLifecycle.EveryRun | src/host/VtIo.cpp:154-322 | that invariant holds in every interleaving of start-up, closed pipes and messages |
| PtyLifecycle.CloseWhileStarting | src/host/VtIo.cpp:300-322 | after a close during start-up, running is never entered, whatever follows |
| PtyLifecycle.StartsIffNotClosed | src/host/VtIo.cpp:209-243 | start-up succeeds exactly if no pipe closes while it waits |
| PtyLifecycle.StartRunsIff | src/host/VtIo.cpp:154-243 | from the initialised state, start-up reaches running exactly if the input thread can be made, the output works and, where it waits, no pipe closes before the wait is over |
| PtyLifecycle.WholeRunIff | src/host/VtIo.cpp:83-322 | the same for every run from the console's creation on, whatever else happens before, between and after |
| PtyLifecycle.CloseIsAsked | src/host/VtIo.cpp:300-322 | in every run a closed pipe asks for the close, once in all, unless it fails a start-up in progress |
| CommandLine.EscapeArgument | src/host/ConsoleArguments.cpp:33-104 | the two passes produce the escaped form defined character by character |
| CommandLine.EscapedOnlyIfNeeded | src/host/ConsoleArguments.cpp:33-104 | quotes are put around an argument exactly if it is empty or has a blank; text without quotes is otherwise left as it is, but for backslashes at its end |
| CommandLine.ReadArgument | src/host/ConsoleArguments.cpp:33-104 | an escaped argument, followed by a blank or the end, is read back as it was |
| CommandLine.SplitJoined | src/host/ConsoleArguments.cpp:304-330 | escaping a list of arguments, joining with spaces and splitting by the rules of CommandLineToArgvW returns exactly the list |
| Numerals.StoiDecimal | src/host/ConsoleArguments.cpp:225-241 | reading a printed number returns it and takes the whole text |
| Numerals.WcstoulHex | src/host/ConsoleArguments.cpp:270-279 | reading a printed handle returns it, or the largest 32-bit number if it is larger |
| Numerals.PrintedExamples | src/winconpty/winconpty.cpp:190-204 | numbers as they are printed in decimal and in hexadecimal |
| Numerals.ReadExamples | src/host/ConsoleArguments.cpp:225-287 | numbers as they are read: after blanks and a sign, up to the first character that is not a digit |
| ConsoleArguments.Arguments.GetClientCommandline | src/host/ConsoleArguments.cpp:304-330 | all remaining tokens are consumed and printed as one line |
| ConsoleArguments.Arguments.GetShortValue | src/host/ConsoleArguments.cpp:215-250 | a size is accepted exactly if all of the next token is a number of at most 32767; its low 16 bits count |
| ConsoleArguments.Arguments.ParseHandleArg | src/host/ConsoleArguments.cpp:261-287 | a handle is accepted exactly if it is hexadecimal, not zero and was not given before |
| ConsoleArguments.Arguments.ParseNext | src/host/ConsoleArguments.cpp:369-495 | one turn of the loop consumes at least one token, or refuses the line |
| ConsoleArguments.Arguments.ParseCommandline | src/host/ConsoleArguments.cpp:341-506 | the loop ends and has consumed every token if it succeeds; it succeeds exactly if every own token has a value that it takes and no handle is given twice; then every flag is set exactly if its token is among the own ones, every value is the one given last, and the client gets the other tokens |
| ConsoleArguments.Accepted | src/host/ConsoleArguments.cpp:369-503 | the client's command line splits into exactly the tokens that are the client's; a server handle is given at most once, and one is created exactly if none was given |
| ConsoleArguments.AcceptedIff | src/host/ConsoleArguments.cpp:369-503 | which lines are accepted, in their tokens |
| ConsoleArguments.AcceptedSets | src/host/ConsoleArguments.cpp:369-503 | what an accepted line sets, in its tokens |
| ConsoleArguments.LaunchReadBackIff | src/winconpty/winconpty.cpp:169-204 | the line that a pseudoconsole host is launched with is parsed into exactly the settings it was printed from, if and only if both handles are not zero and fit 32 bits |
| InputQueue.InputBuffer.ConsumeCached | src/host/inputBuffer.cpp:166-180 | the first events that were set aside in the same mode are taken |
| InputQueue.InputBuffer.PeekCached | src/host/inputBuffer.cpp:183-201 | they are copied and stay |
| InputQueue.InputBuffer.Cache | src/host/inputBuffer.cpp:205-217 | what is too much is set aside behind the rest |
| InputQueue.InputBuffer.Fetch | src/host/inputBuffer.cpp:393-453 | presses are taken until there is enough; a key taken in part keeps exactly the presses left |
| InputQueue.InputBuffer.Read | src/host/inputBuffer.cpp:372-471 | a removing read returns exactly the first n items of the plain queue and leaves exactly the others, a peek returns the same items and leaves the storage, and a read fails exactly if it comes to a key that cannot be converted; in a Unicode stream read the repeat counts returned and left add up to those stored, and each item is a stored one but for its count or character |
| InputQueue.OneReads | src/host/inputBuffer.cpp:393-453 | what one event reads as, written out: whole, press by press with count 1, or one item for each byte of its character |
| InputQueue.InputBuffer.CoalesceEvent | src/host/inputBuffer.cpp:747-781 | when and how the last event takes a new one in, with a 16-bit count |
| InputQueue.InputBuffer.WriteBuffer | src/host/inputBuffer.cpp:676-731 | what is swallowed, typed as text, merged or stored at the end, and how many count as written |
| InputQueue.InputBuffer.WriteText | src/host/inputBuffer.cpp:794-811 | one key per code unit, a null with its own key |
| InputQueue.InputBuffer.Write | src/host/inputBuffer.cpp:548-567 | a key that resumes output, or pauses it in line mode, leaves the storage as it was; typed text is stored as key-down events of its code units; other events are merged or stored at the end; whoever waits is woken while there is something to read |
| InputQueue.OneWritten | src/host/inputBuffer.cpp:676-731 | what writing one event does, written out for each of these cases |
| InputQueue.InputBuffer.Prepend | src/host/inputBuffer.cpp:486-521 | the new events come before all others and are never merged |
| InputQueue.MergedReadsIff | src/host/inputBuffer.cpp:762-777 | reading press by press, two merged keys read as the two exactly if they are the same key, both counts are positive and their sum fits 16 bits |
| InputQueue.StoredReads | src/host/inputBuffer.cpp:727-729 | storing at the end appends to what readers get, in every mode |
| InputQueue.PeekKeepsIff | src/host/inputBuffer.cpp:455-460 | a peek leaves the queue as it was exactly if what was set aside is enough, or all the items are asked for, or the number asked for ends with a character; a Unicode peek always does |
| InputQueue.OverrunIff | src/host/inputBuffer.cpp:393-460 | a read sets something aside exactly if it ends within a character |
| InputQueue.PeekDoubles | src/host/inputBuffer.cpp:455-460 | a peek after which a byte is in the queue twice |
| InputRuns.MergeSettles | src/host/inputBuffer.cpp:747-781 | merging loses presses, or leaves as many; what the two events read as stays exactly if the new one reads as nothing, or both are the same key read press by press with counts that are positive and fit 16 bits together |
| InputRuns.RunConservesIff | src/host/inputBuffer.cpp:372-471 | over any run of writes and removing reads, what was taken and what is left are what was there and what was written, in order, if and only if every merge on the way meets that condition and no read that failed had items set aside |
| InputRuns.Drive | src/host/inputBuffer.cpp:372-567 | the calls made on a buffer, one after the other, are such a run, so the same holds of the buffer |
| InputText.ConvertSome | src/host/inputBuffer.cpp:84-121 | the room is filled exactly and the rest of the last character's bytes set aside |
| InputText.CharsAreUnitsIff | src/host/inputBuffer.cpp:84-121 | as many characters as code units were converted exactly if there was no surrogate pair |
| InputText.PairReadAgain | src/host/inputBuffer.cpp:84-121 | a pair of which the second half is left behind |
| InputText.TextCache.ConsumeCached | src/host/inputBuffer.cpp:126-156 | bytes set aside in the same mode come first |
| InputText.BatchMeans | src/host/inputBuffer.cpp:65-82 | the batch conversion fails exactly if a character before the end of the room cannot be converted, and otherwise gives the text character by character if that fits |
| InputText.TextCache.Consume | src/host/inputBuffer.cpp:38-123 | it fails exactly if it comes to a character that cannot be converted; otherwise the reader gets the right text, and what is left behind is right exactly if the text fit whole, nothing was converted, or no surrogate pair was |
| ConsoleFill.LaidSpells | src/host/_output.cpp:134-198 | the cells spell exactly the text that was read, and are as many as the widths of its glyphs and the blanks at the right edge |
| ConsoleFill.LaidFits | src/host/_output.cpp:101-206 | the cells fit the rest of the buffer, and reading stops early only at its end |
| ConsoleFill.LaidByRows | src/host/_output.cpp:101-206 | laying text out row by row is laying it out as one stream |
| ConsoleFill.RowHalves | src/host/_output.cpp:138-156 | within a row every left half is followed by its right half and the other way round |
| ConsoleFill.LaidRunAligned | src/host/_output.cpp:134-202 | a row's run of laid glyphs is shown with one column per cell |
| ConsoleFill.RunShows | src/host/_output.cpp:134-202 | a run that was filled with printable characters is shown as these, each in its columns and in the attributes that were there |
| ConsoleFill.PlainMeans | src/host/_output.cpp:120-133 | the two flags are cleared in an attribute and nothing else |
| ConsoleFill.Screen.Fill | src/host/_output.cpp:67-211 | exactly the cells from the start on change, contiguously and as the text lays them; characters leave attributes alone and attributes the characters; narrow characters and attributes go one to a cell until the text or the buffer ends; the counts are those of cells and of text read; each row but the last is filled to its right edge |
| DbcsOutput.IsLeadByte | src/host/dbcs.cpp:56-75 | true exactly if the byte is in one of the ranges before the terminator |
| DbcsOutput.InRangesIff | src/host/dbcs.cpp:56-75 | ... written out on the pairs of bounds |
| DbcsOutput.CheckBisect | src/host/dbcs.cpp:23-47 | true exactly if the bytes end within a character |
| DbcsOutput.Output.WriteConsoleA | src/host/_stream.cpp:518-650 | what is written is the greedy reading of the kept byte and the buffer, and a trailing lead byte is kept; if no character is converted back to more bytes than it was read from, the call reports at most its own bytes, and exactly those if and only if each is converted back to as many; and what happens if a completed pair cannot be converted |
| DbcsOutput.ShortCountExample | src/host/_stream.cpp:622-650 | a pair that is read as a character of one byte, for which the count is one too small |
| DbcsOutput.ReadInParts | src/host/_stream.cpp:535-589 | a stream is read as its first part, and then the kept byte with the second part |
| DbcsOutput.CutAnyhow | src/host/_stream.cpp:518-592 | without a lead byte before a control character, every split into calls, empty ones too, writes what one reading of the whole stream does |
| DbcsOutput.WriteAll | src/host/_stream.cpp:518-650 | calls made one after the other on an output write that, and together report the bytes of a clean stream exactly if every character is converted back to as many as it was read from |
| DbcsOutput.CutAnywhereIff | src/host/_stream.cpp:535-569 | every split in two agrees exactly if there is no such byte, provided that a pair of a lead byte and a control character does not read like the control character alone |
| Utf8Stream.SameLead | src/inc/til/u8u16convert.h:133-148 | searching back for a byte that is not a tail finds the start of the last character, and the table gives its length |
| Utf8Stream.Reader.Convert | src/inc/til/u8u16convert.h:95-171 | for any bytes the array of four is not overrun, and each byte is handed to the decoder once, in order, or kept; on any piece of a well-formed stream, the output is all characters that are complete by then and no other, and as many bytes are wanted as are missing |
| Utf8Stream.AtEnd | src/inc/til/u8u16convert.h:95-171 | when the stream ends every character has been read and nothing is kept |
| Utf8Stream.EncodedSound | src/inc/til/u8u16convert.h:133-148 | text in UTF-8 is a well-formed stream: only the first byte of a character is not a tail, and it announces the length |
| Utf8Stream.StandardDecodes | src/inc/til/u8u16convert.h:158-165 | decoding by section 3 of RFC 3629 is a decoder as ReadAll asks for |
| Utf8Stream.ReadAll | src/host/_stream.cpp:513-517 | pieces fed to a fresh reader: every byte is decoded or kept, and if together they are a text in UTF-8, however it is cut, the outputs joined are the text and nothing is kept |
| CommandHistories.BackIs | src/host/history.cpp:372-379 | walking back passes every index once, from the top after the bottom |
| CommandHistories.CommandHistory.FindMatchingCommand | src/host/history.cpp:432-477 | the first match on the way back, found exactly if there is one, unless the start is outside the list |
| CommandHistories.CommandHistory.Remove | src/host/history.cpp:408-428 | the command goes, and the one displayed last stays the same one unless it is removed |
| CommandHistories.CommandHistory.Append | src/host/history.cpp:120-147 | never more than the maximum, no index outside the list, and the new command is the one displayed last |
| CommandHistories.CommandHistory.Add | src/host/history.cpp:89-154 | a repeated command moves to the end, the oldest one goes if there is no room, and commands stay distinct exactly if the search could look at them |
| CommandHistories.AddedKeepsDistinctIff | src/host/history.cpp:102-137 | adding keeps commands distinct exactly if the new one was taken out or was not there |
| CommandHistories.DuplicateExample | src/host/history.cpp:111-118 | a history with a duplicate although they are suppressed |
| CommandHistories.CommandHistory.Retrieve | src/host/history.cpp:170-192 | the index moves by one within the list, but for the first time after a reset |
| CommandHistories.CommandHistory.RetrieveNth | src/host/history.cpp:194-204 | the index is brought into the list, or is 0 if that is empty |
| CommandHistories.CommandHistory.Empty | src/host/history.cpp:211-216 | no commands, and none displayed |
| CommandHistories.CommandHistory.Realloc | src/host/history.cpp:239-251 | the commands that fit the new maximum stay |
| CommandHistories.CommandHistory.Swap | src/host/history.cpp:491-500 | two commands change places and nothing else does |
| HistoryLists.Histories.FindOwner | src/host/history.cpp:35-47 | the history of a process is never a free one |
| HistoryLists.Histories.Free | src/host/history.cpp:53-61 | that history becomes free and the others stay as they are |
| HistoryLists.Histories.FindOldest | src/host/history.cpp:329-344 | the last free history, among the empty ones if there are any |
| HistoryLists.Histories.Allocate | src/host/history.cpp:291-365 | a history in use is never taken; one of the same program keeps its commands; the result comes first and the others keep order and commands; there is none exactly if all are in use and there may be no more |
| CookedLayout.LayoutLine | src/host/readDataCooked.cpp:1297-1393 | the nested loops lay a row out as defined unit by unit |
| CookedLayout.LineBounds | src/host/readDataCooked.cpp:1297-1393 | a row is never wider than the page, is full unless the text ends, and only a wide glyph before the last column is skipped |
| CookedLayout.LineShows | src/host/readDataCooked.cpp:1297-1393 | a row shows exactly the text it takes in, but for a skipped glyph |
| CookedLayout.LineColumns | src/host/readDataCooked.cpp:1297-1393 | what a row shows is never wider than its column count |
| CookedLayout.FreshRowIff | src/host/readDataCooked.cpp:1362-1376 | a fresh row takes something in exactly if it has two columns or need not show a control character |
| CookedLayout.LoopEndsIff | src/host/readDataCooked.cpp:951-969 | the layout ends exactly if the page has two columns or there is no such character |
| CookedLayout.LayShowsIff | src/host/readDataCooked.cpp:950-969 | all of the text is shown, in order, exactly if no wide glyph comes to the last column of a row where the segment starts, or after a control character, or on a page of one column |
| CookedLayout.LostExample | src/host/readDataCooked.cpp:1310-1323 | a control character and two wide glyphs on a page of three columns: neither glyph is shown |
| CookedLayout.LayFills | src/host/readDataCooked.cpp:950-969 | every row but the last is full, and none is wider than the page |
| CookedLayout.LayInPartsIff | src/host/readDataCooked.cpp:931-969 | laying text out in two segments gives the same rows as at once, exactly if no wide glyph is squeezed where it is cut |
| CookedLayout.SqueezeExample | src/host/readDataCooked.cpp:1314-1323 | a text all of which is shown when laid out at once, and of which in two segments only the first glyph is |
| CookedRows.LineStands | src/host/readDataCooked.cpp:1297-1393 | in a row every glyph takes its one or two columns, a control character two, a tab up to the next multiple of eight or the edge; the row ends early only for a wide glyph or a control character that has one column left |
| CookedRows.LayArranged | src/host/readDataCooked.cpp:950-969 | in the whole layout every unit stands so, the first row behind the prompt, and a row that ends early does so for the unit that the next one begins with |
| CookedRead.LineEditor.Replace | src/host/readDataCooked.cpp:861-877 | the range is clamped, the cursor is behind the new text, and the changed part grows down to it |
| CookedRead.LineEditor.SetCursorPosition | src/host/readDataCooked.cpp:887-891 | the cursor stays in the buffer |
| CookedRead.LineEditor.LayoutSegment | src/host/readDataCooked.cpp:950-969 | the loop over a segment ends, with the rows of the layout |
| CookedRead.LineEditor.LayoutBuffer | src/host/readDataCooked.cpp:925-978 | three segments, and the cursor where the text before it ends |
| CookedRead.LineEditor.LayoutOnPage | src/host/readDataCooked.cpp:923-1095 | the layout is tried again, from the left edge, exactly if it is too high for the page and did not start there; the cursor is where the text before it ends, on a row and left of the right edge |
| CookedRead.LineEditor.ScrollTo | src/host/readDataCooked.cpp:1105-1111 | the pager's top is the one nearest to where it was of those that show the cursor's row and only rows of the text |
| CookedRead.BufferShownIff | src/host/readDataCooked.cpp:925-978 | the three segments together show the whole buffer, in order, exactly if none of them loses a glyph |
| CookedRead.RenderedDisplays | src/host/readDataCooked.cpp:923-1095 | the rows are arranged so, and the cursor is where the text before it ends among them, or at the start of the next row if that is the right edge |
| CookedRead.LineEditor.Redisplay | src/host/readDataCooked.cpp:907-1295 | the rows show the whole buffer exactly if no segment loses a glyph; every unit stands in its columns, and the cursor where the text before it ends; that is on the page, on a row that is shown; the pager moves no further than it has to; the rows shown are rows of the text and fit below the origin |

## Left out

- FindBestPos: a place at 2^30 or above is not found even if the rectangle fits there; the contract says so.
- PackRects: rectangles have sizes of at least 0, and coordinates do not overflow 32 bits.
- ScrollRows: rows that leave the buffer wrap around in the source; the callers modelled here move rows inside it.
- ScrollRegion: cells are single columns; glyph and row internals, line renditions, images and accessibility events are not modelled.
- IntersectHas: for two rectangles that both reach into negative coordinates, the intersection comes out empty although they have common points.
- IsValidIff: the second part of the check's result takes a minimum where a maximum is meant, so the check never sees a left child that reaches too far; the tree is ordered by construction.
- Build: the scalars do not overflow.
- WriteUTF16: the system's conversion is taken to be UTF-8 with U+FFFD for surrogates that are not paired.
- WriteInfos: the attributes 0xFFFF, which the code takes for none, are treated as already in force; the escape sequences for colors and positions are items, not bytes; a character flagged as a leading half is taken to be shown in two columns and any other in one, whatever the terminal's own table of widths says.
- AlignedIffPaired: columns are those of the cells' flags, as in WriteInfos.
- StartIfNeeded: a signal thread is always there, and the requests sent to the terminal are one step.
- SplitJoined: the rule for two quotes in a row inside quotes is not needed for escaped text and not modelled.
- ParseCommandline: CommandLineToArgvW is its documented rules with blanks and tabs, the program's name ends at a quote or a blank, and a number's leading white space is ASCII.
- Read: the wake-up event is a flag, and the code page is any function from code units to bytes.
- Consume: the batch conversion is taken to stop for want of room before it looks at the next character; which text is left behind is stated for code pages that have something for U+FFFD.
- WriteBuffer: the terminal input module's answer to each event is a parameter.
- Fill: the two variants of each loop, for data and for a repeated value, are one loop over the values; the branch without a terminal writes through other code.
- WriteConsoleA: every lead byte with the next byte is one character, a count of -1 stands for its wrapped value, and the waiting of a suspended console is not modelled.
- Convert: what the decoder makes of a piece is a parameter, and characters are numbers, not UTF-16 code units.
- LayoutLine: a glyph is one or two columns wide, with what combines with it.
- Redisplay: there are no popups and echo is on; what is erased, the bytes written, and colors are not modelled.
- Realloc: the maximum is not negative, as the callers' sizes are not.
- The rendering engine, fonts, windows, the registry, accessibility, aliases, selection and clipboard.
- The state machine that parses escape sequences, and the terminal's own dispatch.
- The search of the line editor's constructor for the prompt's origin, and word navigation.
- Locks, threads and overlapped writes are steps of a state machine; their order is arbitrary.
