# Advent of Code 2022 in Dafny

A Dafny model of the puzzle solutions in `src/day*.rs`, days 1 to 23 and 25.
Each day is one module (`Day1Calories` … `Day25Snafu`). It holds that day's
parsers, helper functions and the loops its `run` function drives. A shared
module `Text` models the Rust string handling the parsers rely on:
`trim`, `lines`, `split`, `split_whitespace` and `parse::<T>()` for
fixed-width integers.

The modules follow the form of the Rust code:

- Pure helpers become functions, and lemmas state what they mean.
- Loops become methods with loop invariants. A method's postcondition ties
  its result and new state to a specification function (such as
  `Day14Sand.Pours`, `Day17Rocks.Tower` or `Day23Elves.Spread`), or states
  the property outright (the least-weight walk of `Day12Hills.Dijkstra`).
- Types whose methods update their own fields become classes. This covers
  the rope of day 9, the sand world of day 14, the chamber of day 17, the
  circular list of day 20, the board walker of day 22 and the elves of
  day 23.

Three Rust conventions are written out explicitly:

- Strings are sequences of characters. Where the code slices a `&str` at a
  byte offset (`line[2..]` and `line[4..]` on day 7, `split_at(4)` on
  day 21), `Text.CharsInBytes` turns the offset into a character count
  through the UTF-8 widths, and an offset inside a character is the panic
  the code would hit.
- Rust's truncating `/` and `%` on signed integers are modelled through
  `Text.TruncDiv` and `Text.TruncRem`.
- Parsing a fixed-width integer checks the width's range, as `parse::<T>()`
  does. Arithmetic after parsing is on unbounded integers, except where a
  precondition or a `None` result rules out overflow; "## Left out" names,
  day by day, the fixed-width sums, products and index computations that
  are left unbounded.

Where the code would panic on its input (`unwrap` on a failed parse, a
missing separator, an index past the end), the model mostly returns `None`,
`false` or a dedicated outcome. Some panics are preconditions instead, each
on a "## Left out" line that starts with the member's name:
`Day5Stacks.PopMany`, `Day5Stacks.MoveCrates9001`, `Day5Stacks.MoveCrates`,
`Day7Filesystem.FindSmallest`, `Day11Monkeys.MonkeyRun`, `Day12Hills.Run`,
`Day14Sand.Source`, `Day16Valves.RunSimulation`,
`Day20Mixing.CircularList.GetElementFromZero`, `Day20Mixing.Run`,
`Day25Snafu.DigitValue` and `Day25Snafu.FromInt`.

## Model

| member | source | states |
|---|---|---|
| Day1Calories.GroupSum | src/day1.rs:5-9 | a group's lines are all parsed as `i32`, otherwise (an empty or malformed line, which panics) the result is `None`, and there is a line that does not parse exactly then |
| Day1Calories.GroupSums | src/day1.rs:2-10 | one entry per blank-line-separated chunk of the input; `None` exactly when some chunk's sum fails |
| Day1Calories.GroupSumFormatted | src/day1.rs:5-9 | a non-empty group of `i32` values written one per line reads back as the sum of its values, and holds no blank line |
| Day1Calories.GroupSumsFormatted | src/day1.rs:2-10 | an inventory written as groups of lines separated by blank lines reads back as the list of the groups' sums, in order |
| Day1Calories.SortAsc | src/day1.rs:12 | `sort` leaves the same values (as a multiset) in ascending order |
| Day1Calories.InsertSorted | src/day1.rs:12 | inserting into an ascending list keeps it ascending and adds exactly the new value |
| Day1Calories.SortedUnique | src/day1.rs:12 | two ascending lists with the same values are equal, so the sorted vector depends only on the values |
| Day1Calories.TopThree | src/day1.rs:12-14 | after `sort`, `reverse` and `truncate(3)`: min(3, n) values, in descending order, drawn from the sums, and every value left out is no larger than every value kept |
| Day1Calories.PrefixDominates | src/day1.rs:13-14 | the first k entries of a descending list are descending, drawn from it, and no smaller than any entry dropped |
| Day1Calories.TopThreeHasMax | src/day1.rs:12-14 | the first kept value is the largest group sum |
| Day1Calories.TopThreeOrderIrrelevant | src/day1.rs:12-14 | the kept values depend only on the multiset of sums, not their order |
| Day1Calories.TopThreeTotal | src/day1.rs:2-16 | the answer exists exactly when every group parses |
| Day1Calories.TopThreeTotalOrderIrrelevant | src/day1.rs:2-16 | two inputs whose groups have the same sums in any order give the same answer |
| Day2Strategy.DefeatedBy | src/day2.rs:50-63 | the shape that beats `c`: `Defeats(DefeatedBy(c)) == c` |
| Day2Strategy.Trichotomy | src/day2.rs:73-88 | two shapes are equal, or exactly one defeats the other, and no shape defeats itself |
| Day2Strategy.ChooseBasedOnEnd | src/day2.rs:50-63 | for a draw the opponent's shape, for a win the shape that defeats it, for a loss the shape it defeats |
| Day2Strategy.ChoiceValue | src/day2.rs:65-71 | Rock 1, Paper 2, Scissors 3 |
| Day2Strategy.Score | src/day2.rs:73-88 | 3 exactly for equal shapes, 6 exactly when the player's shape defeats the opponent's, 0 exactly when it is defeated |
| Day2Strategy.ScoreComplement | src/day2.rs:73-88 | the two players' scores for a round add up to 6 |
| Day2Strategy.ChoiceGivesEnd | src/day2.rs:50-88 | the chosen shape scores exactly the requested end, and it is the only shape that does |
| Day2Strategy.RoundScore | src/day2.rs:41-44 | a round adds the chosen shape's value plus the end's points, between 1 and 9 |
| Day2Strategy.ParseChoice | src/day2.rs:27-32 | a shape exactly for "A", "B" and "C" |
| Day2Strategy.ParseEnd | src/day2.rs:34-39 | a round end exactly for "X", "Y" and "Z" |
| Day2Strategy.ParseRound | src/day2.rs:25-39 | fewer than two whitespace-separated words panics; otherwise the round named by the first two words |
| Day2Strategy.ParseTwoWords | src/day2.rs:25-39 | two words joined by a space parse as the pair of their letters |
| Day2Strategy.ParseRoundFormatted | src/day2.rs:25-39 | every round written as the guide writes it parses back to itself |
| Day3Rucksacks.Priority | src/day3.rs:30-38 | lower-case letters score 1 to 26 and upper-case letters 27 to 52 |
| Day3Rucksacks.PriorityInjective | src/day3.rs:30-38 | distinct letters have distinct priorities |
| Day3Rucksacks.PriorityOnto | src/day3.rs:30-38 | every priority from 1 to 52 belongs to a letter |
| Day3Rucksacks.Common | src/day3.rs:12-22 | the item types present in all three rucksacks of a group |
| Day3Rucksacks.SumOfBadges | src/day3.rs:3-28 | succeeds exactly when the lines form complete groups of three and every group has a common item; then one badge per group, each common to the group, and the total is the sum of their priorities |
| Day3Rucksacks.BadgesUnique | src/day3.rs:16-24 | when each group shares exactly one item type, the badges (and so the total) are determined |
| Day4Sections.ParseIntoRange | src/day4.rs:46-51 | a range exists only when the input is `left-right` with both halves `u32` numbers, which are its bounds; no '-' gives `None` |
| Day4Sections.ParseFormat | src/day4.rs:46-51 | formatting an assignment with `u32` bounds and parsing it gives it back |
| Day4Sections.IsContained | src/day4.rs:53-56 | `is_contained`: the second assignment starts no earlier and ends no later than the first; ContainedIffCovered says what that means |
| Day4Sections.IsOverlapping | src/day4.rs:58-67 | `_is_overlapping`: with the two ordered by start (a tie puts the right one first), the earlier one ends no earlier than the later one starts; OverlapIffShared says what that means |
| Day4Sections.ContainedIffCovered | src/day4.rs:53-56 | for a non-empty inner assignment, containment holds exactly when every section of the inner one is a section of the outer one |
| Day4Sections.ContainedTransitive | src/day4.rs:53-56 | containment is transitive |
| Day4Sections.ContainedAntisymmetric | src/day4.rs:53-56 | two assignments containing each other are equal |
| Day4Sections.OverlapIffShared | src/day4.rs:58-67 | for non-empty assignments, overlap holds exactly when they share a section |
| Day4Sections.OverlapSymmetric | src/day4.rs:58-67 | overlap does not depend on the argument order |
| Day4Sections.TouchingOverlap | src/day4.rs:22-24 | assignments meeting at one section overlap, as the examples `1..3`/`3..4` and `3..4`/`1..3` check |
| Day4Sections.ContainedOverlaps | src/day4.rs:14 | containment either way implies overlap |
| Day4Sections.PairCounts | src/day4.rs:9-16 | no ',' panics; otherwise the line is `left,right`, both parse, and it counts exactly when one contains the other |
| Day4Sections.PairCountsFormatted | src/day4.rs:9-16 | a written pair counts exactly when one assignment contains the other |
| Day5Stacks.PopMany | src/day5.rs:57-63 | with at least `count` items, the items left followed by the items popped are the original vector, and exactly `count` items are popped, so they keep their bottom-to-top order |
| Day5Stacks.MovedKeepsTotal | src/day5.rs:50-72 | a move by either crane keeps the number of stacks and the total number of crates, and changes no stack other than the source and the destination |
| Day5Stacks.Moved9001Order | src/day5.rs:50-55 | after a CrateMover 9001 move between two stacks, the source keeps what lay beneath the moved block, and the destination gains that block on top in its original order |
| Day5Stacks.CranesDifferByReversal | src/day5.rs:50-72 | the two cranes leave the same source stack and the same crates on the destination, and the one-at-a-time crane stacks the moved block in reverse |
| Day5Stacks.MoveCrates9001 | src/day5.rs:50-55 | the world of stacks, updated in place, becomes the CrateMover 9001 move of the old world |
| Day5Stacks.MoveCrates | src/day5.rs:65-72 | the world, updated in place one crate at a time, becomes the reversing move of the old world; it is unchanged when source and destination are the same stack, and when no crate moves, whatever the stack numbers |
| Day5Stacks.OneMoreCrate | src/day5.rs:66-71 | each loop step of `move_crates` pops the top crate of the source and pushes it onto the destination, taking the partial move from `i` to `i + 1` crates |
| Day5Stacks.MovedNothing | src/day5.rs:65-72 | moving zero crates changes nothing, with either crane |
| Day5Stacks.ParseMove | src/day5.rs:112-123 | a parsed move holds three `u16` numbers; too few words or a bad number gives `None` where the code panics |
| Day5Stacks.ParseMoveOfText | src/day5.rs:112-123 | parsing the line "move N from A to B" written for a move with `u16` fields gives that move back |
| Day5Stacks.CellOfCrate | src/day5.rs:91-105 | a drawn crate "[c" in column `k` reads as crate `c` |
| Day5Stacks.CellOfGap | src/day5.rs:91-95 | two blanks in column `k` read as no crate |
| Day5Stacks.NumberCell | src/day5.rs:91-95 | the stack-number line reads as no crate in every column |
| Day5Stacks.Header | src/day5.rs:90 | the drawing is the longest prefix of the lines whose lines are all non-blank after trimming; the line after it, if any, is blank |
| Day5Stacks.HeaderLength | src/day5.rs:90 | the scan for the first blank line stops at a blank line or at the end |
| Day5Stacks.ParseStack | src/day5.rs:87-110 | the loop over the drawing collects the crates of column `k` top first and returns them reversed, bottom first; a short line or an empty bracket fails as the code panics |
| Day5Stacks.TopDownNext | src/day5.rs:90-106 | one more drawing line adds its crate in column `k`, or nothing, or fails |
| Day5Stacks.FailureStays | src/day5.rs:90-106 | once a line makes the column scan fail, the whole drawing fails |
| Day6Marker.Distinct | src/day6.rs:22-28 | the characters occurring in the window, at most as many as its length |
| Day6Marker.AllCharsAreDifferent | src/day6.rs:22-28 | `all_chars_are_different`: the de-duplicated characters of the window are as many as its length; AllCharsAreDifferentIffNoRepeats says what that means |
| Day6Marker.AllCharsAreDifferentIffNoRepeats | src/day6.rs:22-28 | the de-duplicated window keeps its length exactly when no character occurs twice |
| Day6Marker.NoRepeatsSnoc | src/day6.rs:22-28 | a window extended by one character has no repeats exactly when the shorter one has none and lacks the new character |
| Day6Marker.FindMarker | src/day6.rs:3-20 | fewer than 14 characters panics (and only then); a reported count ends a repeat-free window of 14 and no earlier window is repeat-free; no report means no window ending before the last character is repeat-free |
| Day7Filesystem.IndexOfName | src/day7.rs:26 | the position of the entry called `name` in a children table, and `None` exactly when no entry has that name |
| Day7Filesystem.FindUnique | src/day7.rs:143 | with unique names, looking a name up gives the node of the only entry with that name |
| Day7Filesystem.NewDir | src/day7.rs:40-46 | `Node::new`: a directory with no children |
| Day7Filesystem.Insert | src/day7.rs:48-50 | `append_node`: afterwards the name maps to the new node, every other name maps to what it mapped to before, and names stay unique |
| Day7Filesystem.InsertTwice | src/day7.rs:48-50 | inserting the same entry twice is the same as once |
| Day7Filesystem.InsertAt | src/day7.rs:104-124 | `append_node` on the directory the cursor path leads to, rebuilt up to the root; what it does is stated by the InsertAt lemmas below |
| Day7Filesystem.SameNamesSameIndex | src/day7.rs:48-50 | tables with the same names in the same order look a name up at the same position |
| Day7Filesystem.Size | src/day7.rs:52-63 | `Node::size`: a file's size, or the sum of the children's sizes for a directory |
| Day7Filesystem.DirSizesBounded | src/day7.rs:52-63 | no directory in a tree is larger than the tree |
| Day7Filesystem.SmallTotalCounts | src/day7.rs:195-213 | `calc_size` of a directory sums the sizes of all directories in its tree that are at most 100000 |
| Day7Filesystem.CalcSize | src/day7.rs:195-213 | the loop of `calc_size` returns that total |
| Day7Filesystem.Viable | src/day7.rs:191-193 | `viable_size`: deleting a directory of that size leaves at least 30000000 of the 70000000 free |
| Day7Filesystem.ViableMonotone | src/day7.rs:191-193 | a larger directory stays viable to delete |
| Day7Filesystem.FindSmallest | src/day7.rs:167-189 | the loop of `find_size_of_smallest_dir_to_delete` returns the value of its recursive definition |
| Day7Filesystem.SmallestIsMinViable | src/day7.rs:167-189 | the result is at most `u64::MAX`, no larger than any viable directory size in the tree, and either `u64::MAX` or itself a viable directory size |
| Day7Filesystem.SmallestOfIsMin | src/day7.rs:175-186 | the loop over the children keeps the smallest viable size seen so far |
| Day7Filesystem.ParseLine | src/day7.rs:215-238 | a parsed line is a command exactly when it starts with "$"; a listed directory starts with "dir"; a listed file has a `u64` size and a non-empty name |
| Day7Filesystem.ParseCommand | src/day7.rs:216-226 | a command is accepted exactly when it starts with "cd" or is "ls", and then it is a command line |
| Day7Filesystem.DollarLine | src/day7.rs:216-217 | a line "$ " followed by a text is the command the trimmed text names, the slice starting right after those two bytes |
| Day7Filesystem.ParseLineInsideChar | src/day7.rs:215-230 | a line starting with "$" whose byte 2 lies inside a character, or with "dir" whose byte 4 does, is rejected, where the byte slice panics |
| Day7Filesystem.SliceOffsetsAscii | src/day7.rs:215-230 | after "$" or "dir", an ASCII character makes the byte offset of the slice its character offset |
| Day7Filesystem.CommandSliceInsideChar | src/day7.rs:216-217 | a "$" followed by a two-byte character is rejected, since byte 2 falls inside that character |
| Day7Filesystem.ParseFormat | src/day7.rs:215-238 | every line written as the terminal prints it parses back to itself |
| Day7Filesystem.ParseCd | src/day7.rs:216-221 | "$ cd d" is a `cd` to d |
| Day7Filesystem.CdCommand | src/day7.rs:219-221 | "cd d" for a word d trims to itself and is a `cd` to d |
| Day7Filesystem.ParseLs | src/day7.rs:222-223 | "$ ls" is an `ls` |
| Day7Filesystem.ParseDirListing | src/day7.rs:228-230 | "dir d" lists directory d |
| Day7Filesystem.ParseFileWithSize | src/day7.rs:232-235 | "size name" lists a file with that `u64` size |
| Day7Filesystem.InsertAtEffect | src/day7.rs:104-124 | inserting into the current directory keeps the path valid and the node's kind, makes the name map to the new node and leaves other names alone |
| Day7Filesystem.InsertAtWellNamed | src/day7.rs:104-124 | insertion keeps every children table free of duplicate names |
| Day7Filesystem.InsertWellNamed | src/day7.rs:48-50 | inserting a well-named node into a well-named table keeps every entry well-named |
| Day7Filesystem.InsertAtIdempotent | src/day7.rs:104-124 | listing the same entry again changes nothing |
| Day7Filesystem.Step | src/day7.rs:90-147 | one line: files and directories are added to the current directory, `ls` does nothing, `cd /`, `cd ..` and `cd name` move the cursor; `cd ..` at the root or to a missing name panics; the cursor always leads to a node |
| Day7Filesystem.AtPrefix | src/day7.rs:138-141 | going up from a valid cursor reaches a node |
| Day7Filesystem.AtSnoc | src/day7.rs:142-145 | going down into a child reaches that child |
| Day7Filesystem.CdDownUp | src/day7.rs:134-146 | `cd name` then `cd ..` returns to the same session |
| Day7Filesystem.Replay | src/day7.rs:88-148 | the session after a sequence of lines keeps a valid cursor |
| Day7Filesystem.ReplayLine | src/day7.rs:90-147 | one more line keeps the cursor valid, and a panic stays a panic |
| Day7Filesystem.ReplayWellNamed | src/day7.rs:88-148 | every children table built by a session has unique names |
| Day7Filesystem.StepWellNamed | src/day7.rs:90-147 | one line keeps every children table free of duplicates |
| Day7Filesystem.ReplayFailed | src/day7.rs:88-148 | once a prefix of the session panics, the whole session does |
| Day7Filesystem.Execute | src/day7.rs:90-147 | the loop body: parsing and running one line, as the replay does |
| Day7Filesystem.Interpret | src/day7.rs:80-148 | the loop of `run` over the lines after the first gives the replayed session, or a panic exactly when the replay has one |
| Day7Filesystem.ReplayPrefix | src/day7.rs:90 | replaying one more line is one more step |
| Day7Filesystem.SumSizesInsert | src/day7.rs:48-63 | adding an entry under a new name adds its size to the directory's; replacing swaps the old size for the new |
| Day7Filesystem.SumSizesUpdate | src/day7.rs:52-63 | replacing one entry changes the sum of sizes by the difference |
| Day7Filesystem.SizeAfterNewFile | src/day7.rs:94-109 | listing a new file in a directory reached through directories grows the root's size by exactly the file's size |
| Day8Forest.DigitOf | src/day8.rs:22 | a character converts exactly when it is a decimal digit, and then to its value from 0 to 9 |
| Day8Forest.ParseRow | src/day8.rs:19-24 | a line parses exactly when every character is a digit, into one height per character with that digit's value |
| Day8Forest.ParseForest | src/day8.rs:11-33 | the forest parses exactly when there is at least one line and every line is all digits; it has one row per line, as many columns as the first line, and each row is that line's parse |
| Day8Forest.ParseForestText | src/day8.rs:11-33 | a rectangular grid of heights from 0 to 9, written one row of digits per line, parses back to the same forest |
| Day8Forest.ParseRowText | src/day8.rs:19-24 | a row of heights written as digits parses back to the same row |
| Day8Forest.BorderSight | src/day8.rs:36-39 | a tree is on the border exactly when nothing lies between it and the edge on some side |
| Day8Forest.ViewingDistance | src/day8.rs:92-99 | the distance counts every tree shorter than the viewer up to and including the first one at least as tall, or the whole line; it is at least one on a non-empty line |
| Day8Forest.Product | src/day8.rs:128 | the product of the four distances is zero exactly when one of them is |
| Day8Forest.BorderVisible | src/day8.rs:36-42 | every border tree is visible |
| Day8Forest.ScoreZeroOnBorder | src/day8.rs:84-128 | the scenic score is zero exactly for border trees, since an interior tree sees at least one tree each way |
| Day8Forest.NoneAsTall | src/day8.rs:46-55 | the flag loop leaves the flag set exactly when every tree in the line is shorter than the viewer |
| Day8Forest.CountSeen | src/day8.rs:92-99 | the counting loop with its early break computes the viewing distance |
| Day8Forest.SeenUpTo | src/day8.rs:92-99 | the viewing distance stops at the first tree at least as tall as the viewer |
| Day8Forest.SeenAll | src/day8.rs:92-99 | with no tree as tall as the viewer, the whole line is seen |
| Day8Forest.Column | src/day8.rs:62-71 | the column holds each row's tree at that index, top row first |
| Day8Forest.SlicesAreSights | src/day8.rs:51-71 | the slices walked to the left and upwards, reversed, and those walked to the right and downwards are the four sight lines from the tree to the edge, nearest first |
| Day8Forest.IsVisible | src/day8.rs:35-74 | the method answers true exactly when the tree is on the border or some side has only shorter trees up to the edge |
| Day8Forest.ScenicScore | src/day8.rs:76-129 | the method returns the product of the four viewing distances, which is zero exactly on the border |
| Day9Rope.DirectionOf | src/day9.rs:29-35 | exactly the letters U, D, L and R name a direction, and the direction's letter is the one read |
| Day9Rope.DirectionOfLetter | src/day9.rs:29-35 | each direction's letter reads back as that direction |
| Day9Rope.ParseMove | src/day9.rs:25-41 | a parsed move has the first character's direction and the trimmed rest as its `usize` distance; an unknown letter gives `None` where the code panics |
| Day9Rope.ParseMoveText | src/day9.rs:25-41 | a move written as its letter, a space and its distance parses back to itself |
| Day9Rope.ParseMoveOf | src/day9.rs:25-41 | a line made of a direction letter and a rest whose trimmed text is a `usize` number parses to that move |
| Day9Rope.ParseMoves | src/day9.rs:136 | the input parses exactly when every line does, into one move per line in order |
| Day9Rope.ParseMovesText | src/day9.rs:136 | moves written one per line parse back to the same moves |
| Day9Rope.Step | src/day9.rs:51-58 | a head step moves one cell, along the row axis exactly for Up and Down |
| Day9Rope.Distance | src/day9.rs:97-105 | the distance is at most one exactly when the knots touch, zero exactly when they overlap, one for diagonal neighbours, and the sum of the axis gaps otherwise |
| Day9Rope.FollowAfterStep | src/day9.rs:60-95 | after one head step from a touching rope, the tail's new place touches both the new head and its old place, and when the tail moves it lands where the head was |
| Day9Rope.Rope.constructor | src/day9.rs:131-134 | both knots start at the origin |
| Day9Rope.Rope.MoveHead | src/day9.rs:51-58 | the head, updated in place, takes one step in the direction and the tail stays |
| Day9Rope.Rope.UpdateTail | src/day9.rs:60-95 | the tail, updated in place, follows the head (it stays while the knots touch, otherwise it moves one cell toward the head on each axis where they differ), and its new place is added to the visited set |
| Day9Rope.Rope.Repeat | src/day9.rs:137-140 | `n` steps of one move leave the rope and the visited set as the specification after those steps |
| Day9Rope.KnotSnoc | src/day9.rs:137-140 | one more step moves the head and then lets the tail follow |
| Day9Rope.VisitedSnoc | src/day9.rs:137-140 | one more step adds the tail's new place to the visited set |
| Day9Rope.KnotTouching | src/day9.rs:60-95 | after every step the head and the tail touch |
| Day9Rope.HeadDisplacement | src/day9.rs:51-58 | the head is at ups minus downs on the row axis and rights minus lefts on the column axis |
| Day9Rope.OriginVisited | src/day9.rs:60-64 | after any step the origin is among the visited cells |
| Day9Rope.ExpandSnoc | src/day9.rs:136-141 | one more move adds its distance's worth of steps in its direction |
| Day9Rope.Simulate | src/day9.rs:130-143 | the nested loops count the cells the tail visits over all the moves' single steps |
| Day9Rope.Run | src/day9.rs:128-144 | the count is the number of visited cells of the parsed moves, and `None` where a line makes the code panic |
| Day10Cpu.Decode | src/day10.rs:30-38 | "noop" is a no-op; a line starting with "addx" is an `addx` of its `i32` operand, and a bad operand panics; any other line does nothing for the cycle |
| Day10Cpu.ProgramOf | src/day10.rs:8 | each input line read as its instruction, in order |
| Day10Cpu.Timeline | src/day10.rs:13-40 | the value of X during each of the next n cycles (n values, the first being the starting X), or a panic when the lines run out or an operand does not parse |
| Day10Cpu.TimelineShift | src/day10.rs:25-39 | a timeline is the first instruction's cycles followed by the timeline of the rest of the program from the updated X |
| Day10Cpu.InstructionEffect | src/day10.rs:25-39 | wherever the i-th instruction starts, `noop` keeps X for its cycle and `addx v` keeps X for both its cycles and then adds v |
| Day10Cpu.StartShift | src/day10.rs:25-39 | each instruction starts once the earlier ones' cycles (1 for `noop`, 2 for `addx`) are over |
| Day10Cpu.StrengthOverSnoc | src/day10.rs:14-23 | with targets listed once each, one more cycle adds X × cycle to the sum exactly when that cycle is a target |
| Day10Cpu.AddStrength | src/day10.rs:14-23 | after the sampling step the total is the strength sum of the cycles run so far, this one included |
| Day10Cpu.AddxRead | src/day10.rs:34-37 | reading an `addx v` keeps X for this cycle and leaves the second cycle pending with v |
| Day10Cpu.Tick | src/day10.rs:25-39 | one cycle of the loop: the state after it continues the same timeline, with X during this cycle equal to the register; a missing line or bad operand panics exactly when the timeline does |
| Day10Cpu.SumOfStrengths | src/day10.rs:6-40 | panics exactly when the 220-cycle timeline does not exist; otherwise the sum of X × cycle over cycles 20, 60, 100, 140, 180 and 220 of that timeline |
| Day11Monkeys.ParseOperation | src/day11.rs:47-57 | an operation is read only from text containing '=', and its constant fits a `u64`; anything else gives `None` where the code panics |
| Day11Monkeys.OperationOfParts | src/day11.rs:51-56 | "old * old" is exactly squaring; "old + n" is exactly a sum and "old * n" a product with `n` parsed as a `u64`; every other triple is rejected |
| Day11Monkeys.OperationOfText | src/day11.rs:47-57 | an operation written as "old + n", "old * n" or "old * old" splits into its three parts, which parse back to it |
| Day11Monkeys.ParseOperationOf | src/day11.rs:48-49 | the operation is read from the trimmed text after the first '=' |
| Day11Monkeys.ParseAction | src/day11.rs:59-69 | the action parses exactly when the divisor after "divisible by" and both targets after "monkey" parse, each as a `u64` |
| Day11Monkeys.ParseItems | src/day11.rs:27-30 | the starting items are one `u64` per comma-separated piece |
| Day11Monkeys.NewMonkey | src/day11.rs:23-45 | a parsed monkey has inspected nothing yet and came from at least five lines of the trimmed text |
| Day11Monkeys.FromParts | src/day11.rs:37-44 | the monkey exists exactly when its items, its operation and its action all parsed, and it holds those parts with an inspection count of zero |
| Day11Monkeys.ParseMonkey | src/day11.rs:124-127 | the header line is dropped and the rest parsed as a new monkey, which has inspected nothing |
| Day11Monkeys.NewMonkeyOfText | src/day11.rs:23-45 | a monkey with at least one item and `u64` fields, written in the puzzle's five-line form, parses back to itself |
| Day11Monkeys.ParseMonkeyOfText | src/day11.rs:124-127 | a header line followed by a monkey's written description parses to that monkey |
| Day11Monkeys.MonkeyOfParsedLines | src/day11.rs:23-45 | five lines whose item field, operation field and action lines parse give the monkey made of those parts |
| Day11Monkeys.Reduced | src/day11.rs:137-143 | the inspected worry level, reduced modulo the number space, is below the number space |
| Day11Monkeys.Turn | src/day11.rs:129-156 | a turn keeps the number of monkeys |
| Day11Monkeys.ThrownAppends | src/day11.rs:136-152 | throwing the items appends to each monkey exactly the reduced worries sent to it, in order |
| Day11Monkeys.TurnEffect | src/day11.rs:129-156 | after its turn the monkey holds no items and has inspected its former item count more; every other monkey gains, in order, the items sent to it |
| Day11Monkeys.SentToTargets | src/day11.rs:145-151 | only the two targets receive items; the true target gets worries divisible by the divisor and the false target the others |
| Day11Monkeys.SentSplits | src/day11.rs:145-151 | with two different targets, every item goes to exactly one of them |
| Day11Monkeys.ThrownTotal | src/day11.rs:136-152 | throwing `n` items adds `n` items to the monkeys' total |
| Day11Monkeys.TurnTotal | src/day11.rs:129-156 | a turn loses exactly the items the monkey throws to itself, which are cleared after the loop, so without self-throws the total number of items is kept |
| Day11Monkeys.MonkeyRun | src/day11.rs:129-156 | `ok` is false exactly when the turn panics (a monkey holding items with a zero modulus or divisor, an item thrown to a monkey that does not exist, or a `u64` overflow of a worry level or of the count); a target that no item reaches is never indexed, leaving the monkeys unchanged; otherwise the monkeys, updated in place, become the turn of the monkey at `index` |
| Day11Monkeys.UnusedTargetIgnored | src/day11.rs:145-151 | a lone monkey whose item goes to itself completes its turn although its other target, 5, names no monkey |
| Day11Monkeys.TurnKeepsSafe | src/day11.rs:136-152 | after a turn every item is still below the number space, so the next turn cannot overflow or divide by zero |
| Day11Monkeys.TurnKeepsTargets | src/day11.rs:129-156 | a turn changes no monkey's operation, divisor or targets, and changes only its own monkey's inspection count |
| Day11Monkeys.TurnsUpToFailed | src/day11.rs:106-108 | once a turn of the round panics, the round does not complete |
| Day11Monkeys.TurnsUpToTotal | src/day11.rs:105-109 | the turns of a round never add items, and keep them all when no monkey throws to itself |
| Day11Monkeys.TurnsUpToTargets | src/day11.rs:105-109 | the turns of a round keep every monkey's targets, and a monkey's count changes only on its own turn |
| Day11Monkeys.SafeTurnsRun | src/day11.rs:106-108 | from a state where every divisor and target is usable, no worry can overflow and every count has room for all items in play, no turn of the round panics and the state stays so |
| Day11Monkeys.Round | src/day11.rs:106-108 | one round, in place, lets every monkey in index order take its turn; `ok` is false exactly when one of those turns panics, and is true from a safe state with room in the counts |
| Day11Monkeys.DivisorDividesNumberSpace | src/day11.rs:103 | every monkey's divisor divides the product of all divisors |
| Day11Monkeys.ReductionKeepsTarget | src/day11.rs:143-149 | reducing a worry modulo a multiple of the divisor does not change the monkey it is thrown to |
| Day11Monkeys.ExampleTurn | src/day11.rs:162-197 | the turn of monkey 1 in the unit test leaves the items and the count the test asserts |
| Day12Hills.GridRows | src/day12.rs:19-20 | the rows are the lines of the trimmed text, each trimmed |
| Day12Hills.FromText | src/day12.rs:16-26 | the map has exactly one cell per character of the trimmed rows, at (row, column), holding that character |
| Day12Hills.InsertRow | src/day12.rs:20-22 | the inner loop adds exactly the cells of row `r`, one per character, and keeps the cells of earlier rows |
| Day12Hills.RowPlaced | src/day12.rs:19-23 | after row `r` is inserted, the map holds exactly the cells of rows 0 to `r` with their characters |
| Day12Hills.Connectable | src/day12.rs:167-169 | `chars_are_connectable`: the target character is at most one above the source character |
| Day12Hills.ConnectableExamples | src/day12.rs:167-169 | a step may stay level, climb one letter or descend, but not climb two letters, as the unit test checks |
| Day12Hills.StepIf | src/day12.rs:58-77 | a neighbour is listed exactly when it exists on the map and the climb to it is allowed |
| Day12Hills.Neighbors | src/day12.rs:49-80 | `neighbors`: the north, south, east and west cells, in that order, each kept when it is on the map and connectable; NeighborsAreSteps says what that means |
| Day12Hills.NeighborsAreSteps | src/day12.rs:49-80 | the neighbours are exactly the orthogonal cells of the map within one letter's climb, each listed once |
| Day12Hills.Weight | src/day12.rs:28-37 | a step weighs 2 exactly when both cells hold the same character, and 1 otherwise |
| Day12Hills.FindNode | src/day12.rs:39-47 | a cell is found only if it holds the target, and `None` means no cell does |
| Day12Hills.FindNodeWithMinDistance | src/day12.rs:171-176 | the chosen cell is a candidate whose distance is no greater than any other candidate's, every finite distance being below infinity |
| Day12Hills.MinDistanceExample | src/day12.rs:220-230 | of three candidates at distances 1, 0 and 1 the one at 0 is chosen, as the unit test checks |
| Day12Hills.WalkStaysInClosedSet | src/day12.rs:124-150 | a walk that starts in a set of cells closed under steps ends in that set |
| Day12Hills.RelaxNeighbors | src/day12.rs:134-149 | the inner loop gives each unvisited neighbour of `u` the smaller of its distance and `u`'s distance plus the step weight, with `u` as its predecessor when that improves it, skipping everything when `u` is unreached; other cells are unchanged |
| Day12Hills.RelaxOne | src/day12.rs:139-148 | one neighbour is relaxed and nothing else changes |
| Day12Hills.InitialSearch | src/day12.rs:116-122 | every cell unvisited, at infinity except the start at 0, and no predecessors satisfies the search invariant |
| Day12Hills.Visit | src/day12.rs:126-149 | one turn removes exactly one cell from the unvisited set, relaxes its steps and keeps the search invariant |
| Day12Hills.VisitKeepsInv | src/day12.rs:124-150 | visiting a cell of least distance keeps the invariant: every predecessor link is a step from an earlier visited cell, every finite distance traces back to the start, and unreached cells stay unreached |
| Day12Hills.PathLength | src/day12.rs:152-164 | after the search, `None` comes exactly when the end has no predecessor, which is exactly when the end is the start or cannot be reached; otherwise the count is the number of links of the predecessor chain ending at the end, and the steps of a start-to-end walk whose total weight no other start-to-end walk undercuts |
| Day12Hills.TraceBack | src/day12.rs:155-159 | following the predecessor links back from the end builds the cells of a chain in which each cell's predecessor is the cell before it and the first has none; it is a walk from the start to the end of at least two cells whose total weight is the end's distance |
| Day12Hills.ChainEnd | src/day12.rs:155-159 | the last cell of a chain of predecessor links has no predecessor exactly when the chain is the single start cell |
| Day12Hills.LinksDetermineChain | src/day12.rs:155-159 | two chains of predecessor links that end at the same cell are equal, so the count traced back is determined by the links |
| Day12Hills.WalkWeightSplit | src/day12.rs:28-37 | the weight of a walk is the weight of its part up to any cell plus the weight of its part from that cell |
| Day12Hills.LastStepWeight | src/day12.rs:28-37 | extending a prefix of a walk by one cell adds that step's weight, and no prefix weighs more than the whole walk |
| Day12Hills.MinIsLowerBound | src/day12.rs:125-128 | the unvisited cell of least distance has a distance no greater than the weight of any walk from the start to it |
| Day12Hills.VisitOptimal | src/day12.rs:124-150 | after a visit, every visited cell's distance is still no greater than the weight of any walk from the start to it |
| Day12Hills.VisitEdgesRelaxed | src/day12.rs:134-149 | after a visit, every step from a visited reached cell to an unvisited one leaves the target at most the source's distance plus the step weight |
| Day12Hills.LeastOfWith | src/day12.rs:93-104 | adding one more search answer and keeping the smaller of it and the best so far keeps the best the least answer |
| Day12Hills.NoLinkUnreachable | src/day12.rs:155-162 | when the search stops with no predecessor for the end, which is not the start, the end cannot be reached |
| Day12Hills.Dijkstra | src/day12.rs:111-165 | a hop count is the number of steps of a start-to-end walk of least total weight, and `None` comes exactly when the end is the start or unreachable |
| Day12Hills.FewestHops | src/day12.rs:93-106 | the collected answers are exactly one per 'a' cell other than the end that reaches the end, each the steps of a least-weight walk from it to the end; the result is the least of them, and there is none exactly when no such cell exists |
| Day12Hills.Run | src/day12.rs:83-109 | 'S' becomes 'a' and 'E' becomes 'z'; the answers are exactly those of the 'a' cells that reach the end, each the steps of a least-weight walk, the result is their least, and `None` (the final unwrap's panic) comes exactly when no 'a' cell reaches the end |
| Day13Packets.FromChars | src/day13.rs:21-56 | a successful read consumes a non-empty prefix of the characters and returns the rest of them |
| Day13Packets.FromString | src/day13.rs:16-19 | a packet is read exactly when the text is non-empty and the element reader succeeds on everything after the first character |
| Day13Packets.DigitsAccumulate | src/day13.rs:51-53 | digits are gathered into the pending number without producing an element |
| Day13Packets.ParseBody | src/day13.rs:21-56 | reading the comma-separated elements of any list followed by ']' gives that list and stops right after the ']' |
| Day13Packets.ParseIntElement | src/day13.rs:32-46 | a number element is closed by the ',' or ']' after it and read as a `u16` |
| Day13Packets.ParseListElement | src/day13.rs:26-30 | a '[' reads a nested list, then the rest of the enclosing list |
| Day13Packets.AfterNestedList | src/day13.rs:40-49 | after a nested list, a ',' is skipped and the enclosing list continues, or its ']' closes it |
| Day13Packets.ParseListText | src/day13.rs:16-56 | parsing the bracketed text of any packet gives the packet back |
| Day13Packets.ParserExamples | src/day13.rs:123-139 | "[]", "[7]" and "[23]" parse to the lists the unit tests expect |
| Day13Packets.ParserListExamples | src/day13.rs:141-164 | "[7,3]" and "[[]]" parse to the lists the unit tests expect |
| Day13Packets.ParserNestedExample | src/day13.rs:166-203 | "[[],1,[2,3],4,[5,[6],7]]" parses to the tree the unit test expects |
| Day13Packets.CompareInts | src/day13.rs:73 | two integers compare Less, Equal or Greater exactly as their values do |
| Day13Packets.Compare | src/day13.rs:59-116 | every pair of packets gets an ordering (never `None`), and equal packets compare Equal |
| Day13Packets.CompareHeads | src/day13.rs:72-112 | equal heads compare Equal |
| Day13Packets.CompareFlip | src/day13.rs:59-116 | swapping the operands reverses the ordering |
| Day13Packets.CompareHeadsFlip | src/day13.rs:72-112 | swapping two heads reverses their ordering, including the wrapped-integer cases |
| Day13Packets.OrderingExamples | src/day13.rs:206-237 | [] < [1], [1] < [3], [1] equals [[1]], [[1],[2,3,4]] < [[1],4] and [[10]] > [5], as the unit tests assert |
| Day13Packets.OrderedIndexSumSwapped | src/day13.rs:243-252 | an index is counted for a pair or for its swap but never both, so the two sums stay within 1 + 2 + ... + n, and reach it when no pair compares Equal |
| Day13Packets.LastPairCounted | src/day13.rs:243-252 | the last pair adds its index to at most one of the two sums, and to one of them when it does not compare Equal |
| Day13Packets.TriangleClosedForm | src/day13.rs:243-252 | 1 + 2 + ... + n is n(n + 1)/2 |
| Day13Packets.SumOfOrderedIndexes | src/day13.rs:241-252 | the pair loop adds the 1-based index of every pair whose left packet compares Less |
| Day14Sand.AtPoint | src/day14.rs:11-18 | `at_point`: the stored cell, else rock on the floor row, air above it and nothing below it |
| Day14Sand.CellKinds | src/day14.rs:11-18 | in a valid world a cell has a content exactly down to the floor row, and each such cell is either air or blocked |
| Day14Sand.AtPointExample | src/day14.rs:25-41 | the cells of the unit test's world read as the test asserts: stored rock, air above the floor, rock on the floor row, nothing below it |
| Day14Sand.Step | src/day14.rs:152-186 | a unit moves only into air, and it rests exactly when the cells down, down-left and down-right are all blocked |
| Day14Sand.PathFacts | src/day14.rs:148-197 | a unit's path goes down one row per step, each step the preferred move into air, and ends above the floor on a cell whose three lower cells are blocked |
| Day14Sand.Dots | src/day14.rs:163-177 | every cell the unit left holds air, and every other cell is as before |
| Day14Sand.PouredAt | src/day14.rs:148-197 | after a pour the resting cell holds sand, the other cells of the path hold air, and every other cell is unchanged |
| Day14Sand.PourRests | src/day14.rs:183-186 | a unit rests above the floor, within reach of the source, on a cell that now holds sand and whose three lower cells are blocked; unless it rests at the source, that cell was air |
| Day14Sand.FreeAfterPour | src/day14.rs:148-197 | after a pour a cell is air exactly when it was air before, or is the source, and is not the resting cell |
| Day14Sand.KeptAfterPour | src/day14.rs:148-197 | every rock or sand cell other than the source keeps its content |
| Day14Sand.ValidAfterPour | src/day14.rs:148-197 | a pour keeps every stored cell above the floor and holding rock, air or sand |
| Day14Sand.World.constructor | src/day14.rs:58-61 | the world holds the given cells and floor row |
| Day14Sand.World.PourSand | src/day14.rs:148-197 | the loop, updating the world in place, returns the end of the unit's path and leaves the world with air along the path and sand where the unit rests |
| Day14Sand.World.PourUntilBlocked | src/day14.rs:76-85 | the stop loop counts every unit poured, the last one being the unit that rests on the source; every unit still lies on sand, each earlier one on a cell that was air before and is not the source, and the world stays valid; the rests and the final world are exactly those of `Pours` from the world before |
| Day14Sand.Pours | src/day14.rs:76-85 | pouring unit after unit until one rests at the source ends, and the last rest is the source, no earlier one is, and the world stays valid |
| Day14Sand.PoursStep | src/day14.rs:77-82 | a unit that rests at the source ends the pouring; any other is followed by the pouring from the world it leaves |
| Day14Sand.World.PourLoop | src/day14.rs:76-85 | the loop pours units until one rests at the source, and its rests and final world are exactly those of `Pours` from the world before |
| Day14Sand.PourOnce | src/day14.rs:148-197 | one unit leaves a valid world, and unless it rests at the source, fewer air cells within reach |
| Day14Sand.PoursRest | src/day14.rs:77-82 | pouring one more unit with `pour_sand` advances the loop along `Pours`: a unit at the source completes the whole pouring, any other keeps the rests so far plus the remaining pouring equal to it, with units still to come |
| Day14Sand.PoursOutcome | src/day14.rs:76-85 | every unit of the pouring rests on sand in the final world, and every one but the last on a cell that was air before and is not the source |
| Day14Sand.PoursFilled | src/day14.rs:76-85 | units that so far rest on sand, on former air cells other than the source, still do so with all later units of the pouring |
| Day14Sand.PourEnds | src/day14.rs:80-84 | when the last unit rests on the source, every unit rests on sand and every earlier one on a former air cell other than the source |
| Day14Sand.Classify | src/day14.rs:156-194 | in a valid world each of the three lower cells is air or blocked, so the match's last arm never fires, and the first matching arm is the preferred step |
| Day14Sand.PourKeeps | src/day14.rs:76-85 | each unit that does not rest on the source fills one more air cell within reach, so the stop loop ends |
| Day14Sand.FewerUnfilled | src/day14.rs:76-85 | a unit that does not rest on the source lowers the number of air cells within reach |
| Day14Sand.SegmentCells | src/day14.rs:101-123 | a segment holds the first endpoint and the cells between the two endpoints along the vertical when their x agree, else along the first endpoint's row |
| Day14Sand.EndpointsExpanded | src/day14.rs:100-125 | on a path of axis-parallel segments every endpoint becomes rock |
| Day14Sand.ParsePointOfText | src/day14.rs:95-98 | an "x,y" endpoint with `usize` coordinates, with or without a surrounding space, parses back to the point |
| Day14Sand.ParsePieces | src/day14.rs:94-99 | the pieces between the arrows of a written rock path parse to its endpoints |
| Day14Sand.ParseLine | src/day14.rs:93-126 | `parse_line`: the endpoints between the "->" arrows, expanded into the cells of every segment, or `None` where an endpoint does not parse |
| Day14Sand.ParseLineOfText | src/day14.rs:93-126 | parsing a rock path written "x,y -> x,y -> ..." gives the cells of its segments |
| Day15Beacons.Manhattan | src/day15.rs:81-83 | the distance is a natural number, zero exactly for the same point |
| Day15Beacons.ManhattanSymmetric | src/day15.rs:81-83 | the distance does not depend on the order of the points |
| Day15Beacons.ManhattanTriangle | src/day15.rs:81-83 | the distance obeys the triangle inequality |
| Day15Beacons.ManhattanExamples | src/day15.rs:147-163 | the four distances of the unit test are 0, 2, 1 and 6 |
| Day15Beacons.MapOf | src/day15.rs:33 | every listed sensor is a key, and each key maps to a beacon listed with it |
| Day15Beacons.MapOfLast | src/day15.rs:33 | when a sensor is listed several times, the last beacon listed for it is kept |
| Day15Beacons.LowestIsLeast | src/day15.rs:19-30 | the low edge of the box is at most 0 and at most every sensor's coordinate minus its reach, and is one of those values |
| Day15Beacons.HighestIsGreatest | src/day15.rs:19-30 | the high edge of the box is at least 0 and at least every sensor's coordinate plus its reach, and is one of those values |
| Day15Beacons.NewGrid | src/day15.rs:18-37 | the loop builds the sensor map and the box whose corners are the low and high edges on each axis |
| Day15Beacons.NewGridRowsInBox | src/day15.rs:18-37 | every row a sensor's diamond touches lies inside the box, which also holds the origin, so the row lookups of `detected_ranges` succeed |
| Day15Beacons.InSensorRangeExamples | src/day15.rs:165-176 | (7, 6) and (5, 6) are in range of the unit test's sensors |
| Day15Beacons.OutOfSensorRangeExamples | src/day15.rs:165-176 | (4, 4), and the sensor and beacon at (0, 0) and (0, 1), are not in range, as the unit test asserts |
| Day15Beacons.InSensorRange | src/day15.rs:72-79 | `is_in_sensor_range`: some sensor, which is not the point and whose beacon is not the point, is no farther from the point than from its beacon |
| Day15Beacons.DetectedInRange | src/day15.rs:72-79 | for a point that is no sensor and no beacon, being in sensor range is being as close to some sensor as that sensor's beacon |
| Day15Beacons.RowRange | src/day15.rs:100-106 | the range a sensor adds to a row within its reach holds exactly the columns of that row the sensor detects |
| Day15Beacons.SensorRow | src/day15.rs:100-106 | what a sensor adds to a row covers exactly the columns of that row it detects |
| Day15Beacons.RawRowCovers | src/day15.rs:92-108 | the unmerged ranges of a row cover exactly the columns some listed sensor detects |
| Day15Beacons.CoversPermutation | src/day15.rs:115 | reordering ranges does not change what they cover |
| Day15Beacons.InsertByStart | src/day15.rs:115 | inserting a range adds exactly it to the multiset of ranges |
| Day15Beacons.SortByStart | src/day15.rs:115 | sorting keeps the multiset of ranges |
| Day15Beacons.SortSorted | src/day15.rs:115 | the sorted ranges start in ascending order |
| Day15Beacons.MergeInto | src/day15.rs:123-133 | one step of the merge leaves a non-empty stack at most one range longer |
| Day15Beacons.Merge | src/day15.rs:117-134 | the merge has no more ranges than its input, and none exactly when the input has none |
| Day15Beacons.MergeSeparated | src/day15.rs:117-134 | merging sorted ranges leaves them sorted by start with no two consecutive ranges that the rule would join |
| Day15Beacons.MergeCovers | src/day15.rs:117-134 | merging sorted ranges covers exactly the same columns |
| Day15Beacons.MergeNonEmpty | src/day15.rs:117-134 | merging ranges that each hold a column gives ranges that each hold a column |
| Day15Beacons.CorrectedGap | src/day15.rs:126 | with touching ranges joined, a merged row holds more than one range exactly when some undetected column lies between two detected ones |
| Day15Beacons.TouchingRangesKeptApart | src/day15.rs:126 | the merge as written keeps 0..=3 and 4..=7 apart although no column between them is undetected |
| Day15Beacons.TouchingRangesJoined | src/day15.rs:126 | with the corrected rule, 0..=3 and 4..=7 become the single range 0..=7 |
| Day15Beacons.MergeRow | src/day15.rs:117-136 | the merge loop computes the merge of the row's sorted ranges |
| Day15Beacons.InitRows | src/day15.rs:86-90 | the row map has exactly the rows of the box, each with no range |
| Day15Beacons.AddSensor | src/day15.rs:98-107 | the inner loop appends to every row what the sensor detects there, keeping the same rows |
| Day15Beacons.CollectRows | src/day15.rs:86-108 | the first phase gives every row of the box the unmerged ranges of all sensors, in their order |
| Day15Beacons.MergeRows | src/day15.rs:113-137 | the second phase gives every row of the box the merge of its ranges sorted by start |
| Day15Beacons.DetectedRanges | src/day15.rs:85-140 | every row of the box maps to the merge of its sorted ranges |
| Day15Beacons.MergedRowMeaning | src/day15.rs:85-140 | a merged row is sorted by start with no two ranges the rule would join, and covers exactly the columns of that row that some sensor detects |
| Day15Beacons.ParseCoordinates | src/day15.rs:220-229 | a parsed point has two `i64` coordinates |
| Day15Beacons.ParseCoordText | src/day15.rs:220-229 | "x=X, y=Y" after a prefix without ',' or '=' and before trailing whitespace parses to (X, Y), which covers the four cases of the unit test |
| Day15Beacons.ParseSensor | src/day15.rs:215-218 | a parsed line is split at its first ':' and each side parses to its point |
| Day15Beacons.ParseSensorText | src/day15.rs:215-218 | a sensor line written as the puzzle writes it parses back to its sensor and beacon |
| Day16Valves.InitEdges | src/day16.rs:24-27 | the matrix holds exactly the tunnels, each at distance 1 |
| Day16Valves.InitDiagonal | src/day16.rs:29-32 | every valve gets distance 0 to itself and every other entry is kept |
| Day16Valves.InitBounded | src/day16.rs:22-32 | after both loops each entry is the length of a walk, and no pair is farther apart than a walk of one tunnel or none |
| Day16Valves.Relax | src/day16.rs:37-46 | one step writes d(i, j) := d(i, k) + d(k, j) only when that is shorter, makes no lookup longer, and each entry stays the length of a walk |
| Day16Valves.RelaxedPairBound | src/day16.rs:34-49 | after relaxing (i, j) through the valve `k` the entry is no longer than any walk whose interior uses `k` and the valves before it |
| Day16Valves.RelaxRow | src/day16.rs:36-47 | the `j` loop leaves the row of `i` no longer than any walk through the valves up to `k` |
| Day16Valves.RowGrows | src/day16.rs:36-47 | relaxing one more pair extends the bounded part of the row by that pair |
| Day16Valves.RelaxThrough | src/day16.rs:35-48 | the `i` loop leaves the whole matrix no longer than any walk through the valves up to `k` |
| Day16Valves.FromGraph | src/day16.rs:19-52 | the triple loop yields shortest distances: no entry is longer than a walk, each entry is the length of one |
| Day16Valves.DiagonalZero | src/day16.rs:29-32 | the distance from a valve to itself is 0 |
| Day16Valves.NeighboursOneApart | src/day16.rs:24-27 | two different valves joined by a tunnel are at distance 1 |
| Day16Valves.AbsentMeansUnreachable | src/day16.rs:20-21 | a pair is absent exactly when no walk joins the two valves |
| Day16Valves.Get | src/day16.rs:58-60 | `get_`: the entry for (u, v), or else the one for (v, u), or `None` |
| Day16Valves.Symmetric | src/day16.rs:54-60 | looking up (u, v) gives the same as (v, u) |
| Day16Valves.OneWay | src/day16.rs:54-60 | the lookup of (v, u) is no longer than that of (u, v) |
| Day16Valves.Triangle | src/day16.rs:34-49 | d(i, j) <= d(i, k) + d(k, j) whenever the right side is defined |
| Day16Valves.WalkInNodes | src/day16.rs:277-291 | with every tunnel between known valves, a walk never leaves them |
| Day16Valves.New | src/day16.rs:140-148 | `State::new`: at valve AA, no valve open, no pressure released and 30 minutes left |
| Day16Valves.IncreaseReleasedPressure | src/day16.rs:212-219 | only the released pressure changes, and it grows by the summed flow of the open valves times the minutes |
| Day16Valves.FlowSnoc | src/day16.rs:213-217 | opening one more valve adds its rate to the summed flow |
| Day16Valves.Moves | src/day16.rs:160-194 | at most one move per valve, and each spends time and releases no less pressure |
| Day16Valves.MovesMembers | src/day16.rs:160-173 | a state is a move exactly when it is the trip to a valve that is closed, has positive flow, is not the current valve, and whose distance + 1 is below the time left |
| Day16Valves.MoveEffect | src/day16.rs:175-186 | a move spends distance + 1 minutes, adds the flow of the valves open before it times distance + 1, then stands on the target and opens it, which adds its rate to the flow |
| Day16Valves.MoveIfPossible | src/day16.rs:160-193 | the loop body yields the move to a valve exactly when it passes the three filters and the trip fits |
| Day16Valves.MovesSnoc | src/day16.rs:160-194 | the moves for one more valve are those for the earlier valves plus its own |
| Day16Valves.Successors | src/day16.rs:150-210 | every successor has less time left and has released no less pressure |
| Day16Valves.NextStates | src/day16.rs:150-210 | the loop collects the moves in valve order, then adds the wait when there are none and time is left |
| Day16Valves.SuccessorsEnd | src/day16.rs:196-207 | a state has no successor exactly when its time is up, and with time left but no trip that fits its only successor is the wait |
| Day16Valves.WaitEffect | src/day16.rs:199-207 | the wait releases the current flow for all remaining minutes and sets the time left to 0 |
| Day16Valves.SuccessorsReady | src/day16.rs:150-210 | in a well-formed cave every successor can be expanded in turn with less time left |
| Day16Valves.SuccessorsOpened | src/day16.rs:183-186 | open valves never repeat and all have positive flow, in every successor as before |
| Day16Valves.MaxOfIsMax | src/day16.rs:269-274 | the maximum over the successors is reached by one of them and beaten by none |
| Day16Valves.AtLeastWaiting | src/day16.rs:260-275 | the best pressure found is at least what the open valves release by themselves in the remaining minutes |
| Day16Valves.SuccessorAtLeastWaiting | src/day16.rs:175-207 | a successor that then waits releases at least as much as waiting now |
| Day16Valves.MoveAtLeastWaiting | src/day16.rs:175-186 | a move that then waits releases at least as much as waiting now |
| Day16Valves.RunSimulation | src/day16.rs:260-275 | the search counts the state and returns the maximum over its successors, or its own released pressure when there are none |
| Day16Valves.RunAll | src/day16.rs:269-273 | searching the successors in order gives their maximum and counts every state visited |
| Day17Rocks.RockFromStr | src/day17.rs:17-33 | a recognised text is, once trimmed, the drawing of the rock returned |
| Day17Rocks.RockOfText | src/day17.rs:20-32 | the rock returned is the one whose drawing the text is exactly |
| Day17Rocks.RockFromDrawing | src/day17.rs:17-33 | each rock's drawing, padded with whitespace, parses back to that rock |
| Day17Rocks.RockOfDrawing | src/day17.rs:20-32 | the five drawings are told apart: each is recognised as its own rock |
| Day17Rocks.Shape | src/day17.rs:37-45 | each rock's cells fit in a four-by-four box whose lowest row holds the first cell |
| Day17Rocks.ShapeCorner | src/day17.rs:37-45 | each rock has a cell on the lowest row and one in the leftmost column of its box |
| Day17Rocks.ShapeOfDrawing | src/day17.rs:20-45 | the cells of each rock are exactly the '#' of its drawing, the bottom line being row 0 |
| Day17Rocks.MaxRow | src/day17.rs:82 | the greatest row is the row of some cell and no cell is above it |
| Day17Rocks.HeightRows | src/day17.rs:82 | a rock is one to four rows high and each of those rows holds one of its cells |
| Day17Rocks.Shifted | src/day17.rs:89-92 | every cell moves by the same rows and columns, in order |
| Day17Rocks.JetFromChar | src/day17.rs:55-61 | only '<' and '>' are jets |
| Day17Rocks.Jets | src/day17.rs:238 | the jets are the trimmed input, one per character, and there are none exactly when some character is neither '<' nor '>' |
| Day17Rocks.JetsRoundTrip | src/day17.rs:55-61 | writing jets back as '<' and '>' and reading them gives the same jets |
| Day17Rocks.NextJet | src/day17.rs:238 | the jet pattern repeats: the next index is always a jet |
| Day17Rocks.Pushed | src/day17.rs:98-120 | a rock moves one column in the jet's direction exactly when `can_blow` allows it, and stays inside the chamber |
| Day17Rocks.Fall | src/day17.rs:94-154 | a rock ends on a row no higher than where it started, and the next jet is a jet |
| Day17Rocks.FallRests | src/day17.rs:94-154 | where a fall ends, the rock is inside the chamber and cannot drop |
| Day17Rocks.FallSets | src/day17.rs:124-139 | a rock that cannot drop after its push rests where the push left it |
| Day17Rocks.FallDrops | src/day17.rs:140-153 | a rock that can drop after its push goes one row lower and carries on with the next jet |
| Day17Rocks.FallThrough | src/day17.rs:94-154 | a rock falls through every empty row, down to at most the row above the last settled one |
| Day17Rocks.DropsThrough | src/day17.rs:179-189 | a rock whose cells are all above row `k`, with no rock from row `k` up, can drop |
| Day17Rocks.DropWithin | src/day17.rs:140-151 | a rock that can drop stays in the chamber and on free cells one row lower |
| Day17Rocks.Stamp | src/day17.rs:125-127 | writing '#' keeps the number of rows and each row seven cells of '.' or '#' |
| Day17Rocks.StampCell | src/day17.rs:125-127 | after the write a cell holds '#' when it is a cell of the rock and what it held before otherwise |
| Day17Rocks.Filled | src/day17.rs:129-134 | the filter keeps only rows that hold a rock, taken from the old rows |
| Day17Rocks.FilledSettles | src/day17.rs:129-134 | after the filter every row holds a rock |
| Day17Rocks.FilledPrefix | src/day17.rs:129-134 | rows that hold a rock up to some row and none above keep exactly the rows below it |
| Day17Rocks.SetRows | src/day17.rs:124-134 | after a rock sets on a settled chamber the filter keeps the old rows and the rows the rock reaches above them, and every kept row holds a rock |
| Day17Rocks.FirstFull | src/day17.rs:196-199 | the index found is the lowest full row; none is found exactly when no row is full |
| Day17Rocks.CompressKeepsHeight | src/day17.rs:195-209 | compressing keeps rows plus offset, keeps the top rows, starts at a full row when it drops any, and keeps a settled chamber settled |
| Day17Rocks.Tallest | src/day17.rs:157-167 | the result is the highest row holding a rock, or -1 exactly when no row holds one |
| Day17Rocks.TallestSettled | src/day17.rs:157-167 | between rocks the tallest row is the last row |
| Day17Rocks.Grown | src/day17.rs:84-87 | room for a rock is the old rows followed by `height + 3` empty rows |
| Day17Rocks.Landing | src/day17.rs:79-154 | a rock spawned two columns from the wall and three rows above the tower rests inside the grown rows, unable to drop, no higher than just above the old rows |
| Day17Rocks.Chamber.constructor | src/day17.rs:71-77 | a new chamber has no rows, tallest row -1 and offset 0 |
| Day17Rocks.Chamber.TowerHeight | src/day17.rs:207-209 | `tower_height`: the rows kept plus the rows dropped by compression |
| Day17Rocks.Chamber.AddRow | src/day17.rs:191-193 | one row of seven '.' is added on top and nothing else changes |
| Day17Rocks.Chamber.CanBlow | src/day17.rs:169-177 | true exactly when every cell is between the walls and on no settled rock |
| Day17Rocks.Chamber.ShouldSet | src/day17.rs:179-189 | true exactly when some cell is on row 0 or right above a settled rock |
| Day17Rocks.Chamber.Compress | src/day17.rs:195-205 | the rows from the lowest full row on are kept and the dropped ones are counted in the offset |
| Day17Rocks.Chamber.UpdateTallestRow | src/day17.rs:157-167 | the tallest row becomes the highest row holding a rock, or -1 |
| Day17Rocks.Chamber.AddRock | src/day17.rs:79-155 | after a rock the chamber holds the grown rows with the rock written where it lands, filtered and compressed; every row holds a rock and the tower grows to the top of the rock or of the old tower |
| Day17Rocks.Chamber.DropShape | src/day17.rs:79-155 | the same for the cells of any gapless shape |
| Day17Rocks.Chamber.AddRows | src/day17.rs:85-87 | `n` empty rows are added on top |
| Day17Rocks.Chamber.FallLoop | src/day17.rs:94-154 | the loop ends where `Fall` says the rock rests, with the rows unchanged |
| Day17Rocks.Chamber.FallStep | src/day17.rs:95-153 | one pass either sets the rock where `Fall` ends, or moves it one row down with the rest of its fall unchanged |
| Day17Rocks.Chamber.Blow | src/day17.rs:98-120 | the rock is moved to the column `Pushed` gives |
| Day17Rocks.Chamber.Settle | src/day17.rs:124-139 | writing, filtering, compressing and updating leave a valid chamber whose tower reaches the top of the rock or of the old tower |
| Day17Rocks.Chamber.StampAndFilter | src/day17.rs:125-134 | the rows become the filter of the rows with the rock written in, all holding a rock |
| Day17Rocks.Chamber.SetRock | src/day17.rs:125-127 | the loop writes '#' at every cell of the rock |
| Day17Rocks.Chamber.CleanRock | src/day17.rs:141-144 | the cells cleared are free, so the rows stay as they were |
| Day17Rocks.Dropped | src/day17.rs:79-155 | dropping one rock as `add_rock` does leaves a settled chamber and a valid next jet |
| Day17Rocks.Tower | src/day17.rs:244-246 | dropping the rocks of the cyclic order one after another, each from the jet the last one left, keeps the chamber settled |
| Day17Rocks.Run | src/day17.rs:232-251 | there is a height exactly when the input is a non-empty jet pattern; it is the height of the tower built by dropping `count` rocks of the cyclic order into an empty chamber with the jets taken cyclically, and at most four rows per rock |
| Day18Cubes.FromString | src/day18.rs:7-14 | a cube exists only when there are at least three comma-separated parts and each parses as `i32`; the first three are its coordinates; any part that does not parse gives `None` |
| Day18Cubes.FromStringFormat | src/day18.rs:7-14 | a cube written as "x,y,z" parses back to itself |
| Day18Cubes.NeighboursTouch | src/day18.rs:16-29 | the six probed positions are exactly the cubes sharing a face, and they are six |
| Day18Cubes.ExposedSides | src/day18.rs:16-29 | six minus the neighbours present, between 0 and 6 |
| Day18Cubes.ExposedSidesCountsTouching | src/day18.rs:16-29 | exposed sides are six minus the number of other cubes that share a face |
| Day18Cubes.ExposedSidesMonotone | src/day18.rs:16-29 | more cubes never expose more sides |
| Day18Cubes.ExposedSidesExamples | src/day18.rs:37-61 | a lone cube shows 6 sides, one with one face neighbour 5, with two 4, as the tests check |
| Day18Cubes.Total | src/day18.rs:64-78 | the surface area of a droplet is between 0 and six per cube |
| Day18Cubes.TotalOfIsolated | src/day18.rs:64-78 | cubes that touch no other cube contribute six sides each |
| Day18Cubes.ParseCubes | src/day18.rs:64-71 | the parsed droplet holds only cubes with `i32` coordinates |
| Day19Minerals.MaxOreCost | src/day19.rs:23-34 | the result is at least each of the four ore costs and is one of them |
| Day19Minerals.FromBlueprint | src/day19.rs:114-128 | the start has one ore robot, no stock, no geodes, and the blueprint's caps: the largest ore cost, the obsidian robot's clay cost and the geode robot's obsidian cost |
| Day19Minerals.BuildOreRobot | src/day19.rs:162-174 | an ore robot is built exactly when the ore robots and stock fall short of the cap for the remaining minutes and the ore pays for it; the result pays its price and adds one ore robot |
| Day19Minerals.BuildClayRobot | src/day19.rs:176-188 | a clay robot is built exactly when the clay robots and stock fall short of the cap and the ore pays for it; the result pays its price and adds one clay robot |
| Day19Minerals.BuildObsidianRobot | src/day19.rs:190-207 | an obsidian robot is built exactly when the obsidian robots and stock fall short of the cap and ore and clay pay for it; the result pays its price and adds one obsidian robot |
| Day19Minerals.BuildGeodeRobot | src/day19.rs:209-222 | a geode robot is built exactly when ore and obsidian pay for it, with no cap; the result pays its price and adds one geode robot |
| Day19Minerals.Somes | src/day19.rs:137-139 | no more states than options |
| Day19Minerals.SomesMembers | src/day19.rs:137-139 | a state is kept exactly when it is one of the present options |
| Day19Minerals.PossibleNextStates | src/day19.rs:130-160 | the builds in order, then the idle state when below some cap, each raised by what the robots of the current state collect |
| Day19Minerals.SuccessorsAreActions | src/day19.rs:130-160 | a state is a successor exactly when it is the outcome of an allowed action: idling below some cap, or buying an affordable, unsaturated robot, which does not collect in the minute it is bought |
| Day19Minerals.OutcomeListed | src/day19.rs:130-160 | the outcome of every allowed action is among the successors |
| Day19Minerals.BoughtUnique | src/day19.rs:162-222 | buying a robot of a kind determines the new state |
| Day19Minerals.SuccessorFacts | src/day19.rs:130-160 | a minute keeps the caps, adds what the geode robots crack, and adds at most one geode robot |
| Day19Minerals.SuccessorsNonEmpty | src/day19.rs:130-160 | with its blueprint's caps a state always has a successor, so the `unwrap` of the maximum never fails |
| Day19Minerals.Utopistic | src/day19.rs:224-226 | the hopeful bound is never below the geodes already cracked |
| Day19Minerals.SimulateAll_ | src/day19.rs:269-302 | the search returns the most geodes over every sequence of successors and counts one simulation per finished path; the pruning never fires |
| Day19Minerals.Explore | src/day19.rs:282-301 | the search over the successors gives their maximum and counts all their finished simulations |
| Day19Minerals.SimulateAll | src/day19.rs:255-267 | the search from the blueprint's start over 24 minutes |
| Day19Minerals.BestOfIsMax | src/day19.rs:300 | the maximum over a list is at least each element's best and equals one of them |
| Day19Minerals.BestOfAttained | src/day19.rs:300 | some element reaches the maximum |
| Day19Minerals.BestOfAtLeast | src/day19.rs:300 | no element beats the maximum |
| Day19Minerals.BestAtLeastSteady | src/day19.rs:269-302 | the search finds at least the geodes the robots at hand crack if no geode robot is added |
| Day19Minerals.BestAtMostEager | src/day19.rs:269-302 | the search finds at most the geodes of adding a geode robot every minute |
| Day19Minerals.EagerClosedForm | src/day19.rs:269-302 | adding a geode robot every minute cracks the robots' share plus 0 + 1 + ... + (minutes - 1) |
| Day19Minerals.BlueprintGeodesBound | src/day19.rs:255-267 | no blueprint cracks more than 276 geodes in 24 minutes |
| Day19Minerals.SteadyMonotone | src/day19.rs:152-157 | more geodes and robots at hand never crack fewer |
| Day19Minerals.EagerMonotone | src/day19.rs:152-157 | the eager bound grows with the geodes and robots at hand |
| Day20Mixing.RemoveInserted | src/day20.rs:47-48 | taking out what was just inserted at an index gives the list back |
| Day20Mixing.RemoveInsertMultiset | src/day20.rs:47-48 | taking an element out and putting it back elsewhere keeps the multiset |
| Day20Mixing.FirstIdIndex | src/day20.rs:33-37 | the index found holds the id and no earlier index does |
| Day20Mixing.ZeroIndex | src/day20.rs:52 | the index found holds the number 0 and no earlier index does |
| Day20Mixing.NewIndex | src/day20.rs:40-44 | the truncating remainder, shifted when negative, is the floored remainder of `current + number` by `len - 1`, so it lies in 0 ..= len - 2 |
| Day20Mixing.MovedIsPermutation | src/day20.rs:28-49 | a move keeps the length, the multiset of (number, id) pairs, the ids and the numbers |
| Day20Mixing.MovedKeepsOrder | src/day20.rs:47-48 | the moved element sits at its new index, and without it the others keep their old order |
| Day20Mixing.MixFirst | src/day20.rs:69-71 | moving any number of elements in order keeps the multiset, the length, the ids and the numbers |
| Day20Mixing.MixFirstStep | src/day20.rs:69-71 | moving one more element of the order applies `move_element` to it, and its id is still in the list |
| Day20Mixing.Mix | src/day20.rs:68-72 | every number of rounds keeps the multiset, the length, the ids and the numbers |
| Day20Mixing.FromZero | src/day20.rs:51-55 | reading from the first 0 keeps the length and starts at a 0 |
| Day20Mixing.RotatedAt | src/day20.rs:53-54 | reading the list rotated to start at `z`, `offset` places in, is indexing it at `(offset + z) % len` |
| Day20Mixing.ShiftedRemainder | src/day20.rs:53 | the remainder of `offset + z` is that of `offset` plus `z`, less the length when it wraps |
| Day20Mixing.CircularList.constructor | src/day20.rs:13-19 | the list holds the elements in order and the size is their number |
| Day20Mixing.CircularList.MoveElement | src/day20.rs:28-49 | the element with the given id is taken out and re-inserted at its new index; the size is unchanged |
| Day20Mixing.CircularList.GetElementFromZero | src/day20.rs:51-55 | the result is the number `offset` places after the first 0, going round the list |
| Day20Mixing.Position | src/day20.rs:33-37 | the scan returns the first index holding the id |
| Day20Mixing.Decrypted | src/day20.rs:59-64 | one element per line, each paired with its line index |
| Day20Mixing.Run | src/day20.rs:58-85 | no result exactly when a line is not an `i64`, a product overflows, there are fewer than two numbers or no 0; otherwise the coordinates of the file mixed ten times |
| Day20Mixing.ReadCoordinates | src/day20.rs:74-83 | the three numbers 1000, 2000 and 3000 places after the 0 of the mixed list, and their sum |
| Day20Mixing.MixRounds | src/day20.rs:68-72 | the outer loop leaves the list mixed the given number of rounds |
| Day20Mixing.MixStep | src/day20.rs:68-72 | one pass of the outer loop adds one round |
| Day20Mixing.MixOneRound | src/day20.rs:69-71 | the inner loop moves every element of the original order, once each, in order |
| Day21MonkeyMath.ParseOperation | src/day21.rs:16-24 | exactly the four symbols parse, each to the operation it stands for |
| Day21MonkeyMath.ParseOperationOfSymbol | src/day21.rs:50-56 | every operation's symbol parses back to it, as the unit test checks for all four |
| Day21MonkeyMath.Inverse | src/day21.rs:35-42 | the inverse is another operation, and `+`/`-` map among themselves |
| Day21MonkeyMath.InverseInverse | src/day21.rs:35-42 | inverting twice gives the operation back |
| Day21MonkeyMath.Apply | src/day21.rs:26-33 | `Operation::apply`: sum, difference, product, or quotient truncated toward zero |
| Day21MonkeyMath.ApplyInverse | src/day21.rs:26-42 | applying the inverse with the same right operand undoes `+`, `-`, and `*` by a non-zero number |
| Day21MonkeyMath.MulThenTruncDiv | src/day21.rs:30-31 | Rust's truncating division undoes a multiplication by the same non-zero number |
| Day21MonkeyMath.TruncDivByMinusOne | src/day21.rs:31 | dividing by -1 negates |
| Day21MonkeyMath.ParseMonkey | src/day21.rs:68-86 | no ':' gives no monkey; a parsed monkey's name is the text before the first ':' |
| Day21MonkeyMath.ParseJob | src/day21.rs:70-85 | the job is a yelling monkey exactly when the trimmed text is an `isize`; a math monkey's left operand is the prefix taking four bytes, and a text whose byte 4 lies inside a character gives no job, where `split_at(4)` panics |
| Day21MonkeyMath.ParseMonkeyOfText | src/day21.rs:68-86 | a monkey written as the input writes it, with a first operand of four bytes in any characters, parses back to itself |
| Day21MonkeyMath.ParseYellingOfText | src/day21.rs:69-73 | "name: n" parses to the yelling monkey |
| Day21MonkeyMath.ParseMathOfText | src/day21.rs:69-84 | "name: abcd op other", with "abcd" taking four bytes, parses to the math monkey |
| Day21MonkeyMath.ParseMathBody | src/day21.rs:70-76 | a math monkey's text whose first operand takes four bytes trims to itself, is no integer, and splits at byte 4 and then at the space after the symbol |
| Day21MonkeyMath.SplitInsideOperand | src/day21.rs:75-84 | a two-byte character followed by "bcd" splits at byte 4 after "bc", which leaves "d" in place of the symbol, so the job is rejected where the symbol's `unwrap` panics |
| Day21MonkeyMath.StartsWithNonDigit | src/day21.rs:72 | a text starting with a non-ASCII character is no `isize` |
| Day21MonkeyMath.FourBytesInside | src/day21.rs:75 | a two-byte character and two ASCII ones take exactly the first four bytes |
| Day21MonkeyMath.SymbolInsideOperand | src/day21.rs:76 | after those three characters, the trimmed rest splits at its first space into "d" and the remainder |
| Day21MonkeyMath.UnknownSymbol | src/day21.rs:72-80 | a text that is no integer, whose four-byte split succeeds and whose next word is no operation is rejected, where `Operation::parse(..).unwrap()` panics |
| Text.CharsInBytes | src/day21.rs:75 | a byte offset that is found ends a prefix taking exactly that many bytes in UTF-8 |
| Text.CharsInBytesComplete | src/day21.rs:75 | every prefix taking that many bytes is found, so an offset is rejected exactly when it lies past the end or inside a character |
| Day21MonkeyMath.ParsedLines | src/day21.rs:214-216 | each line is parsed on its own, in order |
| Day21MonkeyMath.Collect | src/day21.rs:217-218 | every monkey is stored under its own name |
| Day21MonkeyMath.CollectOfParsed | src/day21.rs:214-218 | the map is built exactly when every line parses |
| Day21MonkeyMath.CollectKeepsLast | src/day21.rs:217-218 | every stored monkey comes from a line, and it is the last line naming it |
| Day21MonkeyMath.FromMonkey | src/day21.rs:106-117 | `from_monkey`: "humn" is the unknown, other yelling monkeys are numbers, math monkeys are operations over their operands' trees; `None` on a missing monkey or when the depth bound runs out |
| Day21MonkeyMath.FromMonkeyMeaning | src/day21.rs:106-116 | the tree built for a monkey evaluates to what that monkey yells, whatever the human yells, and fails only where the yell is undefined |
| Day21MonkeyMath.FromMonkeyTotal | src/day21.rs:106-116 | on a description without cycles or dangling operands, enough depth always builds the tree |
| Day21MonkeyMath.Simplify | src/day21.rs:118-136 | the result folds every operation on two numbers, holds the human exactly when the input does, and is a number when the human is absent |
| Day21MonkeyMath.SimplifyEval | src/day21.rs:118-136 | simplifying never changes the value, whatever the human yells |
| Day21MonkeyMath.SimplifyFails | src/day21.rs:126-128 | simplifying only fails on an expression with a division by zero that no value of the human avoids |
| Day21MonkeyMath.Reduce | src/day21.rs:139-189 | a result has the human alone on the left and a number on the right; a number on the left or a non-number on the right gives none |
| Day21MonkeyMath.ReduceSolves | src/day21.rs:139-189 | with only `+` and `-` on the human's side, the number found is the one and only value of the human that makes the left side equal the right |
| Day21MonkeyMath.DivisionUnwoundAsWritten | src/day21.rs:151-168 | the source turns 12 / humn = 3 into humn = 36, though 12 / 36 is 0 and the solution is 4 |
| Day21MonkeyMath.CorrectedDivisionSound | src/day21.rs:151-168 | rewriting `number / y = r` into `y = number / r` keeps an exact solution |
| Day21MonkeyMath.DivisionUnwoundCorrected | src/day21.rs:151-168 | with the corrected rewrite, 12 / humn = 3 unwinds to humn = 4 |
| Day21MonkeyMath.Run | src/day21.rs:213-233 | using the source's own rewrite of `number / y = r` into `y = r * number`, a result has the human alone on the left and a number on the right, and comes from the root monkey's equation |
| Day21MonkeyMath.RunSolves | src/day21.rs:213-233 | when the human's side uses only `+` and `-`, the number found is the one value of the human that makes both sides of the root equal |
| Day22Board.Facing | src/day22.rs:37-44 | the password's facing value is one of 0 to 3 |
| Day22Board.FacingInjective | src/day22.rs:37-44 | different directions have different facing values |
| Day22Board.TurnRight | src/day22.rs:28-35 | a right turn raises the facing value by one, modulo 4 (clockwise) |
| Day22Board.TurnLeft | src/day22.rs:19-26 | a left turn lowers the facing value by one, modulo 4 (anticlockwise) |
| Day22Board.TurnsAreInverse | src/day22.rs:19-35 | left and right turns undo each other, and four turns one way come back to the start |
| Day22Board.CellChar | src/day22.rs:73-80 | every cell is drawn with one of the three characters the board accepts |
| Day22Board.FromChar | src/day22.rs:73-80 | `Cell::from_char`: '.' is open, '#' a wall and ' ' blank |
| Day22Board.FromCharRoundTrip | src/day22.rs:73-80 | reading a cell's character gives the cell back and vice versa, covering the `from_char` test |
| Day22Board.IsSome | src/day22.rs:82-87 | a cell is on the board exactly when it is not blank, as the `is_some` test checks |
| Day22Board.FirstInRow | src/day22.rs:210 | the index found is a board cell and every cell before it is blank |
| Day22Board.LastInRow | src/day22.rs:230 | the index found is a board cell and every cell after it is blank |
| Day22Board.Ahead | src/day22.rs:206-261 | the neighbouring position, when present, is on the grid |
| Day22Board.WrapTarget | src/day22.rs:209-269 | the wrap target is a board cell in the same row (East/West) or the same column (North/South) |
| Day22Board.Step | src/day22.rs:199-281 | the walker stays on an open tile: an open neighbour is entered, a wall stops it, and off the board it wraps unless the wrap target is a wall |
| Day22Board.StepStaysInLine | src/day22.rs:202-278 | a step East or West keeps the row, a step North or South keeps the column |
| Day22Board.Walk | src/day22.rs:193-197 | any number of steps ends on an open tile |
| Day22Board.WalkOneMore | src/day22.rs:193-197 | walking n + 1 steps is walking n steps and one more |
| Day22Board.Applied | src/day22.rs:185-191 | an instruction keeps the walker on an open tile; a turn leaves the position, a move leaves the direction |
| Day22Board.Followed | src/day22.rs:303-305 | following any path ends on an open tile |
| Day22Board.Password | src/day22.rs:283-287 | `password`: 1000 times the row plus 4 times the column, both counted from 1, plus the facing value |
| Day22Board.PasswordDecodes | src/day22.rs:283-287 | on boards narrower than 249 columns the password determines the row, the column and the facing |
| Day22Board.Board.constructor | src/day22.rs:146-151 | a new board faces East from its start tile |
| Day22Board.Board.ApplyInstruction | src/day22.rs:185-191 | the new position and direction are those of `Applied` on the old ones |
| Day22Board.Board.Follow | src/day22.rs:303-305 | after the loop the position and direction are those of `Followed` on the whole path |
| Day22Board.Board.Move | src/day22.rs:193-197 | `count` calls of `move_forward` leave the direction and reach `Walk` of the old position |
| Day22Board.Board.MoveForward | src/day22.rs:199-281 | the new position is `Step` of the old one and the direction is unchanged |
| Day22Board.Board.CurrentPassword | src/day22.rs:283-287 | the password modulo 4 is the current facing value |
| Day22Board.MaxLength | src/day22.rs:121 | the width is at least every line's length and equals some line's length |
| Day22Board.ParseGrid | src/day22.rs:119-152 | fails exactly on no lines, a stray character or no open tile; otherwise the grid is the drawing padded with blanks to the longest line and the start is the first open tile in reading order |
| Day22Board.ParseRow | src/day22.rs:128-141 | fails exactly on a stray character; otherwise the row is the line padded to the width, with the column of its first open tile if it has one |
| Day22Board.DigitRun | src/day22.rs:337 | the prefix counted is all digits and the next character, if any, is not a digit |
| Day22Board.ParseNextInt | src/day22.rs:336-342 | a success splits off a non-empty run of digits that fits in an `i32`, returns their value and the text after them, which does not start with a digit |
| Day22Board.ParseNextIntOfText | src/day22.rs:336-342 | a number's digits followed by a non-digit parse back to the number and the rest |
| Day22Board.ParseNextIntExample | src/day22.rs:372-378 | "123,456" splits into 123 and ",456" |
| Day22Board.InstructionsOfText | src/day22.rs:310-334 | parsing the text of any writable path gives that path back |
| Day22Board.ParseInstructions | src/day22.rs:310-334 | the loop computes the recursive reading `Instructions` of the text, failing where it fails |
| Day22Board.Run | src/day22.rs:290-308 | a password is produced exactly for a split input whose board parses to 200 rows of 150 cells and whose path parses; it is the password of following the path from the first open tile facing East |
| Day22Board.ParseInstructionsExample | src/day22.rs:348-370 | "10R5L5R10L4R5L5" reads as the thirteen instructions the `parse_instructions` test expects |
| Day22Board.ExamplePathText | src/day22.rs:350-368 | the expected instructions are written exactly as the test's input text |
| Day23Elves.Side | src/day23.rs:202-224 | each of the four directions checks three cells, the first being the step itself |
| Day23Elves.Viable | src/day23.rs:197-227 | `is_viable_direction`: none of the three cells on the side of a cardinal direction holds an elf |
| Day23Elves.ViableFreesTarget | src/day23.rs:197-227 | a viable direction leads to a cell no elf stands on |
| Day23Elves.FirstViable | src/day23.rs:99-102 | a direction is found exactly when one is viable, and it is the first viable one in the order |
| Day23Elves.Proposal | src/day23.rs:89-113 | an elf without neighbours proposes nothing; otherwise it proposes the first viable direction, a cardinal one leading to a free cell |
| Day23Elves.ProposedMeaning | src/day23.rs:89-114 | the recorded proposals are exactly those of the elves that propose something, each with the direction it proposes |
| Day23Elves.RotatedLeft | src/day23.rs:79-87 | the rotated list keeps its length, shifts every direction one place to the front and puts the first one last |
| Day23Elves.RotationsSplit | src/day23.rs:79-87 | after k rotations the list starts at its k-th element and wraps round |
| Day23Elves.RotationsRestore | src/day23.rs:79-87 | as many rotations as directions give back the original order |
| Day23Elves.RotationExample | src/day23.rs:234-243 | one and two rotations of north, south, west, east give the orders the rotation test expects |
| Day23Elves.MovingChanges | src/day23.rs:146-155 | an elf's position changes exactly when it is the only proposer of its target |
| Day23Elves.AddToGroupPart | src/day23.rs:133-141 | appending a proposer to its target's group keeps the grouping correct for one more proposer |
| Day23Elves.GroupByTarget | src/day23.rs:117-142 | every proposer ends up in exactly the group of the cell it proposes, and groups hold nothing else |
| Day23Elves.GroupProposal | src/day23.rs:119-141 | one pass of the first loop extends a correct grouping by one proposer |
| Day23Elves.GroupedUnique | src/day23.rs:146-151 | a target's group has one member exactly when that member's proposal is the only one for the target |
| Day23Elves.IndexIn | src/day23.rs:152 | the index found holds the elf and no earlier index does |
| Day23Elves.TargetDone | src/day23.rs:146-155 | settling a target moves its single proposer there and counts it once, and changes nothing when it has several |
| Day23Elves.SoleProposer | src/day23.rs:146-151 | the only proposer of a target that may move is the single member of its group |
| Day23Elves.ElfIndex | src/day23.rs:152-153 | the elf being moved is found at the one index it started from |
| Day23Elves.MovedDistinct | src/day23.rs:146-155 | after the second half no two elves share a cell |
| Day23Elves.MovedNone | src/day23.rs:144-158 | the second half moves nobody exactly when every elf stands where it stood |
| Day23Elves.RowElves | src/day23.rs:31-37 | a line is read exactly when it holds only '#' and '.'; then there is one elf per '#', in column order |
| Day23Elves.GridValid | src/day23.rs:27-45 | a map is read exactly when every character of every row is '#' or '.' |
| Day23Elves.GridSound | src/day23.rs:30-38 | every elf read stands on a '#' of the map |
| Day23Elves.GridComplete | src/day23.rs:30-38 | every '#' of the map holds an elf |
| Day23Elves.GridAscending | src/day23.rs:30-38 | the elves are read in row-major order, hence without repeats |
| Day23Elves.ParseRow | src/day23.rs:31-37 | the inner loop reads one line exactly as `RowElves` does |
| Day23Elves.ParseElves | src/day23.rs:27-45 | the outer loop reads the trimmed lines exactly as `GridElves` does |
| Day23Elves.BoundsHold | src/day23.rs:162-165 | every elf lies inside the rectangle of the least and greatest rows and columns |
| Day23Elves.BoundsTight | src/day23.rs:162-165 | each side of that rectangle touches an elf |
| Day23Elves.RectangleCells | src/day23.rs:169-170 | a rectangle has height times width cells |
| Day23Elves.ElfSetSize | src/day23.rs:161-180 | distinct elves occupy as many cells as there are elves |
| Day23Elves.EmptyCellsCount | src/day23.rs:161-180 | the empty cells of the bounding rectangle number its area less the number of elves |
| Day23Elves.RowText | src/day23.rs:63-71 | a rendered row has one character per column, '#' exactly where an elf stands |
| Day23Elves.RenderedLines | src/day23.rs:57-72 | the rendered rows are the lines of the rendering, unchanged by trimming |
| Day23Elves.ReadRendered | src/day23.rs:27-76 | reading the rendered rows gives the elves of the rectangle, counted from its corner |
| Day23Elves.RenderParse | src/day23.rs:27-76 | reading a rendering back gives every elf, moved so that the corner of the bounding rectangle is the origin |
| Day23Elves.DisplayExample | src/day23.rs:245-252 | ".#.\n..#\n#.." reads as elves at (0, 1), (1, 2) and (2, 0), and these render back to the same text, as the `from_str` test checks |
| Day23Elves.Elves.constructor | src/day23.rs:40-44 | the new state holds the elves, the order north, south, west, east and no proposals |
| Day23Elves.Elves.FromStr | src/day23.rs:27-45 | fails exactly on a stray character; otherwise holds the elves of the map, distinct, in the initial order and without proposals |
| Day23Elves.Elves.RotateDirections | src/day23.rs:79-87 | the array afterwards holds the rotated order |
| Day23Elves.Elves.PerformFirstHalf | src/day23.rs:89-114 | the elves stay put and the proposals gain `Proposed` for every elf |
| Day23Elves.Elves.RecordProposal | src/day23.rs:90-113 | one pass records elf i's proposal, if any, and keeps every proposal leading to a free cell |
| Day23Elves.Elves.PerformSecondHalf | src/day23.rs:116-159 | each elf stands where `Moved` puts it, the proposals are cleared, and the count returned is the number of elves that moved |
| Day23Elves.Elves.SettleTarget | src/day23.rs:146-155 | one pass of the second loop moves a target's single proposer and counts it |
| Day23Elves.Elves.PlayRound | src/day23.rs:263-264 | a round puts the elves where `AfterRound` does and returns 0 exactly when nobody moved |
| Day23Elves.Elves.RunRounds | src/day23.rs:261-268 | the loop stops at the first round in which no elf moves, having rotated the order after each round, with the elves where that many rounds put them; no result only when every one of the `maxRounds` rounds moved an elf |
| Day23Elves.Elves.EmptyTiles | src/day23.rs:161-180 | the count is the area of the bounding rectangle less the number of elves |
| Day23Elves.CountEmpty | src/day23.rs:167-179 | the two loops count the cells of the rectangle where no elf stands, row by row |
| Day23Elves.EmptyInRowsCells | src/day23.rs:167-179 | the row-by-row count equals the number of cells of the rectangle without an elf |
| Day23Elves.OrderInRound | src/day23.rs:267 | the order used in each round is four cardinal directions |
| Day23Elves.AfterRoundAt | src/day23.rs:263-264 | after a round each elf stands where `Moved` puts it, given that round's proposals |
| Day23Elves.NextRound | src/day23.rs:261-268 | each round starts from where the previous one left the elves |
| Day23Elves.KeepsMovingEach | src/day23.rs:261-268 | up to the stopping round, every round moved some elf |
| Day23Elves.SettledStops | src/day23.rs:261-268 | once a round moves no elf, the elves have not kept moving through any later round |
| Day23Elves.SettlesUnique | src/day23.rs:261-268 | the first round in which no elf moves is unique |
| Day23Elves.Run | src/day23.rs:258-271 | a result is produced only for a readable map with elves; its round is the first in which no elf moves, and its count is the empty tiles of the elves' bounding rectangle after that round; a readable map with elves that settles within `maxRounds` rounds always gives a result |
| Day25Snafu.DigitValue | src/day25.rs:18-27 | each digit is worth between -2 and 2, and only '0' is worth 0 |
| Day25Snafu.DigitFor | src/day25.rs:48-55 | every remainder 0 to 4 maps to a SNAFU digit |
| Day25Snafu.DigitForValue | src/day25.rs:48-59 | the chosen digit is congruent to the remainder modulo 5, so subtracting it leaves a multiple of 5; only remainder 0 gives '0' |
| Day25Snafu.DigitValueInjective | src/day25.rs:18-27 | different digits have different values |
| Day25Snafu.ValueCons | src/day25.rs:8-16 | a number is its least significant digit plus 5 times the number of the remaining digits |
| Day25Snafu.ValueBound | src/day25.rs:8-16 | a number with k digits lies within plus or minus (5^k - 1) / 2 |
| Day25Snafu.LeadingDigitDecidesZero | src/day25.rs:8-16 | digits without a leading '0' denote zero only when there are none |
| Day25Snafu.RepresentationUnique | src/day25.rs:43-67 | two digit strings without a leading '0' that denote the same number are equal |
| Day25Snafu.AppendDigit | src/day25.rs:11-13 | a new most significant digit adds its value times the next power of 5 |
| Day25Snafu.ShiftDigit | src/day25.rs:57-59 | one step of `try_from` keeps the value: the rest at the next weight plus the emitted digit |
| Day25Snafu.ToInt | src/day25.rs:8-16 | the loop computes the number the digits denote |
| Day25Snafu.FromInt | src/day25.rs:43-67 | the digits produced denote the value, are '0' alone for zero and have no leading '0' otherwise |
| Day25Snafu.Parse | src/day25.rs:73-84 | fails exactly when the trimmed text holds a character that is not a SNAFU digit; otherwise the digits are that text reversed |
| Day25Snafu.Format | src/day25.rs:31-37 | the text is the digits most significant first |
| Day25Snafu.FormatOfParse | src/day25.rs:129-135 | formatting what was parsed gives back the trimmed text, as the formatting test checks |
| Day25Snafu.EncodingDeterminedByValue | src/day25.rs:137-143 | any digits without a leading '0' that denote the value of a text without a leading '0' format to that text, so `try_from` writes each table entry as in the table |
| Day25Snafu.ConversionTable3 | src/day25.rs:94 | "1=" denotes 3 |
| Day25Snafu.ConversionTable8 | src/day25.rs:99 | "2=" denotes 8 |
| Day25Snafu.ConversionTable15 | src/day25.rs:102 | "1=0" denotes 15 |
| Day25Snafu.ConversionTable2022 | src/day25.rs:104 | "1=11-2" denotes 2022 |
| Day25Snafu.ConversionTable12345 | src/day25.rs:105 | "1-0---0" denotes 12345 |
| Day25Snafu.ValueHead | src/day25.rs:8-16 | a non-empty number is its first digit plus 5 times the rest |
| Day25Snafu.SnafuStep | src/day25.rs:147-150 | adding one more valid line adds its number to the total |
| Day25Snafu.Run | src/day25.rs:146-155 | a result is produced exactly when every line is a SNAFU number and the sum is not negative; it is a SNAFU text denoting the sum, without a leading '0' when the sum is positive |

## Left out

- The command-line dispatcher in `src/main.rs` is not modelled. It uses `env::args` and `include_str!`.
- Each day's `run` reads an input file and prints with `println!`. The model takes the input as a string parameter and returns what would be printed. Days whose `run` only wraps the modelled helpers have no `Run` member.
- `src/day2.rs` lines 1 and 18 name `inputs/day1.txt` and `crate::util`, which do not exist in the repository. The scoring is modelled; the driver is not.
- Rendering and debug output are not modelled: the `Display`/`Debug` impls and ANSI colouring in `src/day9.rs:108-126`, `src/day14.rs:128-145`, `src/day15.rs:40-70`, `src/day17.rs:212-230`, `src/day21.rs:192-211` and `src/day22.rs:155-182`, plus the debug `path` strings of `src/day16.rs:189-191, 221-222`. `src/day25.rs` `Display` is kept because it is the serialiser. `src/day23.rs` `Display` is kept as the map rendering its test compares against.
- The `Instant` timing in `src/day19.rs:240-242` is not modelled.
- Regex parsing of valves and blueprints (`src/day16.rs:73-92`, `src/day19.rs:48-94`) is not modelled. The model takes parsed valves and blueprints as input.
- The petgraph construction in `src/day16.rs:277-291` is not modelled. The model takes a node set and undirected edges.
- Hash iteration order is not modelled. Where `HashMap`/`HashSet` order decides a tie-break or a processing order (`src/day12.rs:40-46, 171-176`; `src/day3.rs` badge choice; `src/day18.rs` sum order; `src/day23.rs:119, 146`), the model picks an arbitrary element and states only order-independent results.
- The whole-run loops over fixed large counts are modelled with the count as a parameter: 10000 rounds in `src/day11.rs:105`, 10 mixing passes in `src/day20.rs:68`, 2022 rocks in `src/day17.rs:242`. The 4,000,000-row search loop of `src/day15.rs:199-212` is not modelled; the per-row range merge it inspects is.
- Text.IsWhitespace: covers only the ASCII whitespace characters; the other Unicode characters that `char::is_whitespace` accepts are not trimmed or split on.
- Day1Calories: the sort, reverse and truncate of the group sums are modelled on values (a functional insertion sort). The `i32` sums are unbounded integers.
- Day2Strategy: the `i32` running total of `src/day2.rs:43-44` is an unbounded integer.
- Day3Rucksacks.Priority: `is_lowercase` is modelled as ASCII `a`-`z`. The `i32` total is an unbounded integer.
- Day4Sections: the counting loops in `run` (`src/day4.rs:8-17, 32-41`) are not modelled, so neither is the overflow of their `u32` count. The per-line predicates they count are.
- Day5Stacks: `run` and `count_stacks` are not modelled. Header parsing and the crane moves are.
- Day5Stacks.PopMany: requires at least `count` items, because popping an empty vector reaches the `unwrap` panic of `src/day5.rs:60`.
- Day5Stacks.MoveCrates9001: requires both stack numbers to name a stack and the source to hold the crates to move, because the indexing of `src/day5.rs:51-53` and `pop_many` panic otherwise.
- Day5Stacks.MoveCrates: requires, when at least one crate moves, both stack numbers to name a stack and the source to hold the crates (one crate when source and destination are the same stack), because the loop body of `src/day5.rs:67-69` panics otherwise. Moving no crate requires nothing.
- Day7Filesystem: `Rc<RefCell<..>>` parent links are modelled as an inductive directory tree plus a cursor path from the root, so aliasing is not modelled. Directory sizes and the totals of `calc_size` (`src/day7.rs:52-63, 195-213`) are unbounded integers rather than `u64`.
- Day7Filesystem.FindSmallest: requires the used space to be at most the disk size, which keeps the `u64` subtraction at `src/day7.rs:192` from underflowing.
- Day8Forest: the counting loops of `run` are not modelled. The visibility and scenic-score helpers they call are. The `u64` product of the four viewing distances (`src/day8.rs:128`) is an unbounded integer.
- Day9Rope: coordinates are unbounded integers rather than `i32`.
- Day10Cpu: the register and signal strengths are unbounded integers rather than `i32`.
- Day11Monkeys: the 10000-round `run`, the final sort and the product of the top two counts are not modelled. A turn whose worry level (`src/day11.rs:140` squares before reducing) or inspection count (`src/day11.rs:155`) would overflow a `u64` is reported as a panic, through `TurnRuns`.
- Day11Monkeys.MonkeyRun: requires `index` to name a monkey, because `monkeys[index]` panics otherwise. Every other panic of the turn gives `ok == false`, with the monkeys left as they were, where the code may already have thrown some items before panicking.
- Day12Hills: the `i32` distances of `src/day12.rs:143` are unbounded integers.
- Day12Hills.FindNode: returns some cell holding the character. The code returns whichever cell hash order yields first.
- Day12Hills.Run: requires the map to contain `S` and `E`. A search that reaches no start gives `None` where `min().unwrap()` panics.
- Day13Packets: the splitting of the input into pairs in `run` is not modelled. Packet parsing and comparison are. The `usize` sum of ordered pair indexes (`src/day13.rs:251`) is an unbounded integer.
- Day14Sand: the world is built from the given rock bounding box; the reading of that box in `src/day14.rs:53-71` is not modelled.
- Day14Sand.Source: requires the source to lie above the floor diagonal (`p.0 + p.1 >= floorY`). This excludes the `x - 1` usize underflow at `src/day14.rs:153`.
- Day14Sand.Segment: takes the row of a segment from its first endpoint, as the code does.
- Day15Beacons: coordinates are parsed as `i64`, but the distance and range arithmetic on them is on unbounded integers, so `i64` overflow is not modelled.
- Day16Valves: `u16`/`u32` widths are unbounded integers, and the opened-valve `HashSet` is a sequence in opening order.
- Day16Valves.RunSimulation: requires a well-formed cave, in which every valve with positive flow can reach every other. The code's `unwrap`s on distances rely on the same fact.
- Day17Rocks: `i128`/`usize` heights are unbounded integers.
- Day17Rocks.Run: checks the whole jet pattern before the first rock and gives `None` if any character is neither '<' nor '>'. The code reads the jets lazily and panics only on a bad jet it actually reaches. So an input whose bad character comes after every jet the rocks use gives `None` here, where the code gives a height.
- Day18Cubes: coordinates are parsed as `i32`, but the neighbour arithmetic of `src/day18.rs:16-23` is on unbounded integers, so `i32` overflow at the extremes is not modelled.
- Day19Minerals: the `u16` resource counts are unbounded integers. The quality-level loop of `run` (`src/day19.rs:229-253`) is not modelled. The per-blueprint search is.
- Day20Mixing: a number outside `i64`, or one whose product with the decryption key is, gives `None`, as the code's parse and multiplication panic. The shifted index `current_index as i64 + number` (`src/day20.rs:40`) and the sum `n1 + n2 + n3` (`src/day20.rs:83`) are unbounded integers.
- Day20Mixing.CircularList.GetElementFromZero: requires a 0 in the list, where the code's `unwrap` panics, and the list size and the offset past the zero's index to fit a `u32`, as the code's `u32` index arithmetic needs.
- Day20Mixing.Run: requires the number of lines plus 3000 to fit a `u32`, for the same index arithmetic.
- Day21MonkeyMath: `isize` overflow is not modelled. `fuel` bounds the recursion depth of the tree building and evaluation, and running out gives `None`. The `println!` traces are not modelled.
- Day21MonkeyMath.Run: reduces with the source's rewrite of a division by the human's side, so it carries the fault listed under Findings; the corrected rewrite is stated only by CorrectedDivisionSound and DivisionUnwoundCorrected.
- Day21MonkeyMath.ReduceSolves: proves that reducing the equation keeps its solution only for `+` and `-` nodes. The code rewrites every operator by its inverse, but under truncating `/` the `*` and `/` rewrites do not always keep the solution, and the `/` rewrite is the fault listed under Findings.
- Day21MonkeyMath.RunSolves: states that the number found solves the root's equation only when the human's side uses `+` and `-`, for the reason given for ReduceSolves.
- Day22Board: `is_numeric` is modelled as ASCII digits. The `usize` password of `src/day22.rs:284-285` is an unbounded integer. `str::len` is taken as a character count (the input is ASCII). The board-size `assert!`s in `run` give `None`. `visited_positions` feeds only the rendering and is not modelled.
- Day22Board.PasswordDecodes: requires fewer than 249 columns, so that the column part of the password does not carry into the row part.
- Day23Elves.Run: the unbounded `for round in 1..` loop is cut off after `maxRounds` rounds, giving `None` when they run out. Coordinates are unbounded integers rather than `isize`. The "Round n" `println!`s are not modelled.
- Day25Snafu: `i128` overflow of the sum and of `to_int` is not modelled.
- Day25Snafu.DigitValue: requires a SNAFU digit, because any other character reaches the `panic!` of `src/day25.rs:25`.
- Day25Snafu.FromInt: requires a non-negative value, because a negative one reaches `unreachable!`. Day25Snafu.Run returns `None` for a negative total.

## Findings

| source | as written | input that shows it | evidently intended | confidence | as-written member | corrected member |
|---|---|---|---|---|---|---|
| src/day21.rs:151-168 | `simplify_equation` rewrites `number / humn = r` as `humn = r * number` | `12 / humn = 3` unwinds to `humn = 36`, but 12 / 36 is 0, not 3 | `humn = number / r`, giving 4 | not executed | Day21MonkeyMath.DivisionUnwoundAsWritten | Day21MonkeyMath.CorrectedDivisionSound |
| src/day15.rs:126 | the merge joins two ranges only when they overlap | ranges `0..=3` and `4..=7` stay two ranges, which the caller reads as a gap although every column between them is covered | ranges that touch are merged too | not executed | Day15Beacons.TouchingRangesKeptApart | Day15Beacons.CorrectedGap |
