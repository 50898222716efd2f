# pgexporter: verified model

This project models five parts of pgexporter in Dafny 4.11 and proves what they promise. `dafny verify dfyconfig.toml`
checks all of it.

## What is modelled

**The adaptive radix tree** (`src/libpgexporter/art.c`), in four layers.

- `Radix` is a path-compressed trie on values: inner nodes carry their whole prefix and a map from branch byte to child.
  Lookup and insertion, and deletion in `RadixDelete`, compare whole prefixes here. `RadixCanonical`, `RadixOrder`,
  `RadixPrefix` and `RadixRuns` prove that the tree is determined by its contents, that the walk is the sorted list of
  the map it stands for, that a prefix search is decided by one leaf, and that every run of operations is a run on a
  finite map.
- `ArtLayout` and `ArtNodes` are the four node layouts with their arrays: sorted keys in Node4 and Node16, the
  indirection table of Node48, direct slots in Node256, binary search, shifting, growing and shrinking, and the 8-bit
  child counter that is zero for a full Node256.
- `ArtTree`, `ArtInsert`, `ArtDelete`, `ArtWalk` and `ArtIterate` work on nodes in place. A node keeps at most ten bytes
  of its prefix. Every method is proved to do to the nodes what `Radix` and `RadixDelete` do to the tree they stand for,
  although it skips the bytes it does not have, recovers them from the leftmost leaf, or splices the stored parts of two
  nodes.
- `ArtMap` is the tree object with its size, specified by a finite map. `ArtJson` adds the two JSON printers as
  callbacks of the walk, `JsonText` the indentation and the escapes they use (`src/libpgexporter/utils.c`), and
  `JsonRead` a reader that finds the printed entries again.

Keys are byte strings whose only zero is the last byte, as `strlen(key) + 1` makes them. No key is then a proper
prefix of another, and every bound and every termination argument rests on that.

**The configuration editor** (`src/config.c`, commands get, set and del): `IniText`, `IniGet` and `IniEdit` hold the
loops over characters and lines, `IniScan` says what they do to any file, `IniShape` cuts a file at a section,
`IniLaws` states the laws on lines for files with one header of each section, `IniRepeated` for any, `IniFile` and
`IniRoundTrip` carry them over to files as text, through `fgets` and the writing back. `IniParts` and `IniJoined`
follow a new line that is written behind a last line without newline, and `IniFileLaws` adds deletions, files with too
many lines, and what a set keeps of a file.

**The command line** (`src/libpgexporter/cmd.c`): `CmdOrder` has the three collecting passes over `argv`, `CmdParse` the
parser that runs afterwards, `CmdLaws` and `CmdValues` what both together promise for every order of typing, and
`CmdNames` says it of lines typed with the names of the table.

**The transfer of configurations** (`src/libpgexporter/configuration.c`): `ConfigTransfer` is the check for structural
parameters and the copy into the running configuration, `ConfigRuns` the runs of reloads, conf sets and reconnecting
servers.

**Two folds**: `Alerts` merges alert overrides (`src/libpgexporter/alert_configuration.c`), `Dashboards` filters panels
and closes the gaps between rows (`scripts/generate_dashboards.py`).

## Where the code does less than one would expect

- An option that takes a value but was typed last without one takes the first positional for its value, because the
  reordering puts the two side by side (`CmdValues.SwallowedPositional`). `CmdValues.ValuesDecide` gives the exact
  condition under which this cannot happen.
- An option typed as `--name=value` or `-n=value` is not recognised, although the comment at `src/libpgexporter/cmd.c:216`
  announces it: the whole text is compared with the names. The parser stops there (`CmdNames.JoinedUnknown`).
- A reload reads the TLS files of the history and the global extensions, and no transfer takes them over; of a metric
  it leaves the two flags `exec_on_all_dbs` and `optional` and the second half of the name buffer to the slot's old
  contents. `ConfigRuns.TransferFollows` gives the exact condition under which a new configuration takes effect as a
  whole, `ConfigRuns.CertificateKept` an example.
- An applied reload leaves no alert definitions, because only the start of the program reads them
  (`ConfigRuns.ReloadDropsAlerts`).
- An applied conf set empties the list of metric names, unless it sets the metrics path and so reads them again: the
  copy it edits does not carry the list, and the transfer takes the empty list over (`ConfigRuns.ConfSetNames`,
  `ConfigRuns.ConfSetExact`, with the example `ConfigRuns.NamesForgotten`).
- Setting `log_line_prefix` alone is accepted and leaves the prefix as it was, while the metric names go as with every
  conf set. The answer is that the value is unchanged, or success if the prefix was empty
  (`ConfigRuns.LinePrefixAlone`).
- Dashboard rows are contiguous after the removal of panels exactly where the template's own gaps and overlaps cancel
  out (`Dashboards.NeighboursMeet`). The description in `scripts/generate_dashboards.py:13` promises a contiguous
  layout without that condition. In `contrib/grafana/postgresql_dashboard.json` the row at y = 169 is eight high, the
  next ones start at 170 and 185, and `Dashboards.ShippedNeighbours` shows what becomes of them.
- In a file with one header for each section, a set followed by a get of the same key gives the value back exactly when
  section, key and value are such as a line can carry, and a new header has room for its newline, or, if what is
  written joins a last line without newline, that line is blank and short enough (`IniJoined.SetThenGetFile`,
  `IniJoined.LongNewHeader`, with the example `IniFileLaws.KeyWithEquals`); the command does not check that.
- In a file that has a section in two parts, get looks at the first and set inserts into the last, so a value just set may
  not be found (`IniRepeated.RepeatedSection`); `IniRepeated.SetThenGetAny` gives the exact condition.
- Set does not end a last line that has no newline. What it writes behind it is read as part of it: the pair is lost
  and a value changes (`IniFileLaws.NewlineMissing`).
- Set and del read at most 8192 lines and drop the rest of a longer file without an error (`IniFileLaws.LongFileSet`,
  `IniFileLaws.LongFileDel`).
- For these two reasons, a set that succeeds keeps all other lines exactly when the file is not longer than that, and
  what is written stays apart from a last line without newline (`IniFileLaws.SetKeepsFile`).
- The iterator counts in 32 bits and the tree in 64. Over a tree of 2^32 entries or more, next never answers false and
  starts over from the root (`ArtIterate.ArtIterator.Next`).

## Model

| member | source | states |
|---|---|---|
| Bytes.KeysDiverge | src/libpgexporter/art.c:482 | two different NUL-terminated keys differ at a byte that both have, so neither is a prefix of the other |
| Bytes.LexLessMeans | src/libpgexporter/art.c:980-1065 | the order is that of the first byte in which two strings differ, and of their lengths if there is none |
| Radix.LookupThrough | src/libpgexporter/art.c:1637-1676 | what is found below a child continues the path, the whole prefix and the branch byte |
| Radix.OptimisticStep | src/libpgexporter/art.c:1658-1673 | skipping the prefix of an inner node and going by the branch byte alone gives the same answer, hit or miss |
| Radix.PartialMiss | src/libpgexporter/art.c:1658-1663 | a stored prefix byte that the key does not repeat means the key is absent |
| Radix.MinimumOnPath | src/libpgexporter/art.c:1285-1337 | the leftmost leaf exists, carries the whole path and prefix of the node, and is longer than both |
| Radix.KeyOutlasts | src/libpgexporter/art.c:843-900 | a key on the path of an inner node has a byte left wherever it stops matching, so `key_len - depth` never wraps and decreases |
| Radix.InsertSplits | src/libpgexporter/art.c:857-895 | a key that leaves the prefix is absent before, and the insertion cuts the node there |
| Radix.InsertAdds | src/libpgexporter/art.c:897-917 | a key whose branch byte has no child is absent before, and the insertion adds one leaf |
| Radix.InsertDescends | src/libpgexporter/art.c:897-909 | otherwise both lookup and insertion go on in the child, one byte deeper |
| Radix.SplitWellFormed | src/libpgexporter/art.c:857-895 | cutting a prefix in two keeps the path-compression invariant above and below the cut |
| Radix.SplitInsertLookup | src/libpgexporter/art.c:857-895 | after the cut the new key is found and every other key as before |
| Radix.InsertWellFormed | src/libpgexporter/art.c:775-920 | insertion keeps the invariant: two children at least, all leaves below agree on path, prefix and branch byte |
| Radix.InsertLookup | src/libpgexporter/art.c:775-920 | insertion changes the answer for its own key and for no other |
| RadixDelete.ShrinkWellFormed | src/libpgexporter/art.c:1369-1397 | dropping a child, and merging with the last one left, keeps the invariant |
| RadixDelete.MergeLookup | src/libpgexporter/art.c:1369-1397 | a child that takes over prefix and branch byte of its parent answers as the two did together |
| RadixDelete.DeleteWellFormed | src/libpgexporter/art.c:921-978 | deletion keeps the invariant |
| RadixDelete.DeleteLookup | src/libpgexporter/art.c:921-978 | deletion makes its own key absent and changes no other answer |
| RadixDelete.DeleteAbsent | src/libpgexporter/art.c:921-978 | deleting an absent key gives back the same tree |
| RadixCanonical.Canonical | src/libpgexporter/art.c:775-978 | two well-formed trees with the same answers are equal: prefix lengths, prefix bytes, branch bytes and nesting |
| RadixOrder.EntriesSorted | src/libpgexporter/art.c:980-1065 | the walk yields keys in strictly increasing unsigned lexicographic order |
| RadixOrder.EntriesExact | src/libpgexporter/art.c:980-1065 | the walk yields exactly the bindings that a search finds |
| RadixOrder.WalkListsMap | src/libpgexporter/art.c:980-1065 | the walk is the sorted list of the map, each binding once, as many as the map has |
| RadixOrder.ModelsCanonical | src/libpgexporter/art.c:775-978 | two trees that stand for one map are equal |
| RadixPrefix.PrefixMismatch | src/libpgexporter/art.c:447-451 | one byte of disagreement inside path and prefix rules out the whole subtree |
| RadixPrefix.PrefixDecidedByMinimum | src/libpgexporter/art.c:453-462 | once the search prefix ends inside the node's prefix, the leftmost leaf decides for the whole subtree |
| RadixPrefix.PrefixDescend | src/libpgexporter/art.c:453-466 | a longer search prefix matches only below the child its next byte names, even when skipped bytes disagree |
| RadixPrefix.MatchingListsMap | src/libpgexporter/art.c:398-470 | the matching entries are the bindings of the map whose key starts with the prefix, once each, in order |
| RadixRuns.RunFollowsMap | src/libpgexporter/art.c:472-542 | after every run of insert, delete and clear a search answers as the finite map, and the size is the number of keys |
| RadixRuns.RunsCanonical | src/libpgexporter/art.c:472-542 | runs that end with the same map end with the same tree and size |
| RadixRuns.InsertDeleteRestores | src/libpgexporter/art.c:775-978 | inserting a fresh key and deleting it restores the tree |
| RadixRuns.InsertsCommute | src/libpgexporter/art.c:775-920 | insertions of two different keys commute |
| ArtLayout.OrderedInsert | src/libpgexporter/art.c:1090-1100 | the shift of keys and children in a Node4 or Node16 adds exactly one binding and keeps the keys sorted |
| ArtLayout.OrderedRemove | src/libpgexporter/art.c:1365-1368 | closing the gap removes exactly one binding and keeps the keys sorted |
| ArtLayout.IndexedInsert | src/libpgexporter/art.c:1152-1163 | table entry and slot of a Node48 together add exactly one binding |
| ArtLayout.IndexedRemove | src/libpgexporter/art.c:1425-1430 | clearing both removes exactly one binding |
| ArtLayout.FreeSlot | src/libpgexporter/art.c:1152-1163 | a Node48 never has more than 48 children, and below 48 it has a free slot |
| ArtLayout.CounterExact | src/libpgexporter/art.c:1467-1470 | the wrapped 8-bit counter, decremented, is the true number of children left, so it never triggers a wrong downgrade |
| ArtLayout.LayoutCount | src/libpgexporter/art.c:56-62 | the counter is the number of children, modulo 256 in a Node256, and never above the capacity of the layout |
| ArtLayout.SizedAfterAdd | src/libpgexporter/art.c:1087-1190 | adding keeps the sizes Node4 2..4, Node16 4..16, Node48 13..48, Node256 38..256 |
| ArtLayout.SizedAfterRemove | src/libpgexporter/art.c:1359-1486 | removing keeps these sizes, except a Node4 with one child, which is merged away |
| ArtLayout.KindChanges | src/libpgexporter/art.c:1087-1478 | a node changes its kind exactly when it is full, and exactly when a removal leaves it with 3, 12 or 37 children |
| ArtNodes.FindIndex | src/libpgexporter/art.c:1192-1227 | the binary search finds the last key that is at most the byte, or -1: all before are smaller, all after larger |
| ArtNodes.Node.GetChild | src/libpgexporter/art.c:731-772 | the slot found holds the child of that byte; no slot means no child, in all four layouts |
| ArtNodes.Node.FirstChild | src/libpgexporter/art.c:1285-1337 | the child with the least branch byte, in all four layouts |
| ArtNodes.Node.GrowTo48 | src/libpgexporter/art.c:1131-1146 | the new Node48 has the same children and header |
| ArtNodes.Node.GrowTo256 | src/libpgexporter/art.c:1164-1182 | the new Node256 has the same children and header |
| ArtNodes.Node.AddChild | src/libpgexporter/art.c:1067-1190 | exactly one child is added; the kind changes only from a full node to the next kind |
| ArtNodes.Node.ShrinkTo16 | src/libpgexporter/art.c:1432-1447 | the new Node16 has the same children and header |
| ArtNodes.Node.ShrinkTo48 | src/libpgexporter/art.c:1470-1485 | the new Node48 has the same children and header |
| ArtNodes.Node.RemoveChild | src/libpgexporter/art.c:1339-1486 | exactly one child is removed; the kind changes with hysteresis |
| ArtTree.CheckPrefixPartial | src/libpgexporter/art.c:1237-1247 | how far the stored bytes, at most ten, agree with the key |
| ArtTree.FindMinimum | src/libpgexporter/art.c:1285-1337 | the descent through the nodes ends at the leftmost leaf of the tree they stand for |
| ArtTree.CheckPrefix | src/libpgexporter/art.c:1249-1273 | where the key leaves the whole prefix, although only ten bytes of it are stored |
| ArtTree.OptimisticChild | src/libpgexporter/art.c:1658-1673 | one step of the descent: absent, or the child in which the search goes on with the same answer |
| ArtTree.Search | src/libpgexporter/art.c:1637-1676 | the descent that skips unstored bytes answers as the comparison of whole prefixes does |
| ArtInsert.SharedPrefix | src/libpgexporter/art.c:821-834 | the bytes that two keys share from a depth on, with the first ten stored |
| ArtInsert.ExpandLeaf | src/libpgexporter/art.c:813-841 | a leaf becomes a Node4 over both leaves with the shared bytes as prefix |
| ArtInsert.LowerHeader | src/libpgexporter/art.c:868-890 | the rest of a cut prefix, taken from the stored bytes or, past ten, from the leftmost leaf |
| ArtInsert.SplitNode | src/libpgexporter/art.c:857-895 | in place, a node is cut where the key leaves its prefix, as in the trie |
| ArtInsert.AddLeaf | src/libpgexporter/art.c:910-917 | in place, one leaf is added to a node, which may be replaced by a larger one |
| ArtInsert.InsertAt | src/libpgexporter/art.c:775-920 | in place insertion yields the nodes of the trie insertion, and the value replaced if there was one |
| ArtDelete.MergedHeader | src/libpgexporter/art.c:1380-1393 | the merged prefix stores the first ten bytes of parent prefix, branch byte and child prefix |
| ArtDelete.MergeWithChild | src/libpgexporter/art.c:1369-1397 | a node with one child gives way to it, as in the trie |
| ArtDelete.RemoveLeaf | src/libpgexporter/art.c:1339-1486 | in place, one leaf is removed from a node, which may shrink or give way to its last child |
| ArtDelete.DeleteFrom | src/libpgexporter/art.c:942-977 | in place deletion below an inner node yields the nodes of the trie deletion and the value removed |
| ArtDelete.DeleteAt | src/libpgexporter/art.c:921-978 | the same at the root, which alone can be a leaf |
| ArtWalk.Iterate | src/libpgexporter/art.c:980-1065 | the recursive walk applies any callback to the entries of the trie in order until it asks to stop, in all four layouts |
| ArtWalk.WalkStates | src/libpgexporter/art.c:980-1065 | a walk offers the entries one by one and in order, each to the state the one before left, until the callback asks to stop |
| ArtWalk.WalkCollects | src/libpgexporter/art.c:380-395 | the callback of the prefix search takes the first max entries, or all there are, and stops the walk if and only if there are more |
| ArtWalk.PrefixBelow | src/libpgexporter/art.c:431-469 | the descent lists the first min(limit, n) of the n entries that start with the prefix |
| ArtWalk.PrefixSearch | src/libpgexporter/art.c:398-470 | -1 for an empty tree or a limit that is not positive, otherwise the first min(limit, n) of the n matches in order |
| ArtMap.Art.Insert | src/libpgexporter/art.c:472-491 | the map gets the binding, the size stays the number of keys; a null key is refused and changes nothing |
| ArtMap.Art.Delete | src/libpgexporter/art.c:513-529 | the map loses the key, the size stays the number of keys; a null key is refused and changes nothing |
| ArtMap.Art.Clear | src/libpgexporter/art.c:531-542 | the map is empty |
| ArtMap.Art.Search | src/libpgexporter/art.c:332-358 | the value of the map, or none |
| ArtMap.Art.ContainsKey | src/libpgexporter/art.c:360-369 | true exactly for the keys of the map |
| ArtMap.Art.PrefixSearch | src/libpgexporter/art.c:398-470 | -1 for an empty map or a limit that is not positive, otherwise the first min(limit, n) of the n bindings with the prefix, in key order, and their number |
| ArtMap.Art.Entries | src/libpgexporter/art.c:980-1065 | every binding of the map once, in strictly increasing key order, as many as the size says |
| ArtMap.Art.ForEach | src/libpgexporter/art.c:1848-1852 | any callback gets every binding of the map once, in key order, until it asks to stop |
| ArtMap.SameContentsSameTree | src/libpgexporter/art.c:472-542 | objects with the same contents stand for the same tree, whatever operations built them |
| ArtJson.PrintEntries | src/libpgexporter/art.c:1678-1724 | callbacks that compare a running count with the size put the separator between any two entries and the ending after the last |
| ArtJson.ToCompactJson | src/libpgexporter/art.c:1799-1820 | the indented tag, and in braces the entries of the map in key order, each with its escaped key in quotes, with commas between them; two braces for an empty tree |
| ArtJson.ToJson | src/libpgexporter/art.c:1775-1797 | the form with one entry to a line, indented a level more: a comma ends every line but the last, and the closing brace is indented as the tag; two braces for an empty tree |
| JsonText.Indent | src/libpgexporter/utils.c:972-984 | behind the text as many blanks as the indentation says, none if it is negative, and then the tag if there is one |
| JsonText.EscapeString | src/libpgexporter/utils.c:2016-2074 | counting first and filling the buffer then gives the text with its five escapes, and fills the buffer exactly |
| JsonText.ReadEscaped | src/libpgexporter/utils.c:2016-2074 | whatever stands behind it, an escaped text between quotes is read back as it was, by a reader that takes no raw newline, tab or carriage return, and ends at the quote the printer wrote |
| JsonText.ControlsEscaped | src/libpgexporter/utils.c:2016-2074 | an escaped text has a control character if and only if the text has one other than newline, tab and carriage return |
| JsonText.KeyReadBack | src/libpgexporter/art.c:1686-1692 | two entries that print the same quoted key have the same key |
| JsonRead.EntryTag | src/libpgexporter/art.c:1687-1693 | the tag of a printed entry is a quote, what a JSON reader reads as the key, and the colon |
| JsonRead.CompactReadsBack | src/libpgexporter/art.c:1702-1820 | a reader of JSON members finds in the compact text exactly the printed entries, in order |
| JsonRead.PrettyReadsBack | src/libpgexporter/art.c:1678-1797 | and in the other form, where entries are indented by two more blanks |
| JsonRead.MembersDecide | src/libpgexporter/art.c:1678-1820 | what such a reader finds determines the entries |
| ArtJson.OneList | src/libpgexporter/art.c:1799-1820 | the list of entries is determined by the map, so equal maps print equal texts |
| ArtIterate.Expanded | src/libpgexporter/art.c:1534-1585 | replacing an inner node at the head of the queue by its children at the tail loses and adds no entry, and shrinks the work left |
| ArtIterate.ArtIterator.NextLeaf | src/libpgexporter/art.c:1524-1587 | the next leaf off the queue is one of the entries still to come; none is left only when there is none |
| ArtIterate.ArtIterator.Next | src/libpgexporter/art.c:1506-1588 | true and a new entry while fewer than size were returned, false afterwards; with 2^32 entries or more, where the 32-bit count wraps, always true |
| ArtIterate.ArtIterator.HasNext | src/libpgexporter/art.c:1590-1598 | true exactly when the next call of next answers true, for every size |
| ArtIterate.AllGiven | src/libpgexporter/art.c:1506-1588 | the queue holds no more entry exactly when as many entries as the size were returned for every time the root was queued |
| ArtIterate.Drain | src/libpgexporter/art.c:1506-1588 | with fewer than 2^32 entries, which is when it ends, calling next until it answers false yields every binding exactly once |
| IniText.SpacesExact | src/config.c:525-549 | white space is the blank and the five characters from tab to carriage return |
| IniText.TrimSplits | src/config.c:525-549 | trimming removes white space at both ends and all of it |
| IniText.TrimOf | src/config.c:525-549 | the trimmed text is the only one that white space can surround to give the original |
| IniText.TrimBuffer | src/config.c:525-549 | the in-place loops on a buffer leave the trimmed text at the returned start |
| IniGet.ConfigGet | src/config.c:557-649 | the scan with its section flag answers as the lines say, stopping at the next header |
| IniGet.GetInCut | src/config.c:557-649 | in a file with one header of the section, a get is the first line of that section that sets the key |
| IniGet.OtherSection | src/config.c:557-649 | what stands under one header is not seen from any other section |
| IniEdit.ScanLines | src/config.c:697-756 | the loop with its five flags finds the last header of the section, the end of its lines and the first line of the key |
| IniEdit.InsertPointMeans | src/config.c:773-785 | a new key goes directly behind the last line of the section that is not blank |
| IniEdit.PaddingMeans | src/config.c:804-812 | an appended header stands behind nothing, a blank line, or a last line without newline |
| IniEdit.ConfigSet | src/config.c:662-821 | the loops over the line array compute the lines of the set, with the error for too many lines |
| IniEdit.ConfigDel | src/config.c:877-982 | the loops compute the lines of the delete, with the error for a missing section |
| IniShape.ScanFinds | src/config.c:697-756 | with one header of the section, the scan finds its lines and the first line that sets the key |
| IniShape.SetInSection | src/config.c:758-795 | a set changes one line of the section or adds one, and leaves all other lines, comments and blanks included, in place |
| IniShape.SetNewSection | src/config.c:796-821 | a set of a missing section appends it and leaves all lines in place |
| IniShape.DelInSection | src/config.c:905-982 | a delete drops the lines that set the key, or the section, and keeps all others in order |
| IniScan.ScanMeans | src/config.c:697-756 | for every file: the scan finds the last header of the section, the end of its lines, and the first line under any of its headers that sets the key |
| IniScan.GetMeans | src/config.c:557-649 | for every file: a get looks from the first header of the section to the header of another one and answers the first line there that sets the key |
| IniScan.SetExchanges | src/config.c:758-764 | for every file: the first line of the section that sets the key is exchanged |
| IniScan.SetInserts | src/config.c:766-795 | for every file: if none sets it, the line goes behind the last line of the last part of the section that is not blank, or to its end; an error with 8192 lines |
| IniScan.SetAppends | src/config.c:796-821 | for every file: a missing section is appended, behind a blank line if the last line ends with a newline and is not blank; an error with 8190 lines or more |
| IniScan.DroppingExact | src/config.c:945-971 | exactly the lines that set the key are dropped |
| IniScan.DelMeans | src/config.c:905-982 | for every file: an error without a header of the section; otherwise its last part goes, or the lines of it that set the key |
| IniFile.ReadingNewLine | src/config.c:761-762 | the line written for a clean key and value reads back as them |
| IniFile.ReadPairClean | src/config.c:557-649 | only clean keys and values are ever read from a line |
| IniLaws.SetOutcome | src/config.c:661-867 | every successful set replaces one line, inserts one line, or appends a section, and is undone by undoing that line |
| IniLaws.SetThenGet | src/config.c:557-867 | set then get of the same key gives the value |
| IniLaws.SetFrames | src/config.c:557-867 | a set changes no get of any other section or key |
| IniLaws.SetTwice | src/config.c:661-867 | two sets of one key equal the last one alone, line by line |
| IniLaws.SetThenDelete | src/config.c:661-1007 | setting an absent key of an existing section and deleting it restores the lines |
| IniLaws.DeleteKey | src/config.c:876-1007 | deleting a key makes its get fail and changes no other get |
| IniLaws.DeleteSection | src/config.c:876-1007 | deleting a section makes all its gets fail and changes no other section |
| IniRoundTrip.ReadWrite | src/config.c:683-695 | lines are read back as they were written if and only if all but the last end with a newline or fill the buffer |
| IniRoundTrip.ReadReadable | src/config.c:683-695 | every file is read in lines of which all but the last end with a newline or fill the buffer |
| IniRoundTrip.SetFileReads | src/config.c:661-867 | unless it joins a last line without newline, the next command reads exactly the lines that a set has written, again with one header for each section |
| IniRoundTrip.SetFramesFile | src/config.c:557-867 | on a good file, a set that joins no last line changes no other get |
| IniRoundTrip.SetThenDeleteFile | src/config.c:661-1007 | on a good file, setting an absent key without joining a last line and deleting it restores the text exactly |
| IniParts.ReadsBlank | src/config.c:571-583 | a line says nothing if and only if it consists of blanks, tabs, newlines, vertical tabs, form feeds and carriage returns |
| IniParts.ReadsComment | src/config.c:571-583 | a hash or a semicolon behind white space makes a comment |
| IniParts.ReadsHeader | src/config.c:585-605 | a name in brackets behind white space is a header, whatever follows the first closing bracket |
| IniParts.ReadsPair | src/config.c:607-632 | a key and a value with any white space around them and around the equals sign are read as that pair |
| IniParts.FrontSays | src/config.c:761-762 | the front of a new line says the pair if and only if all of the value is in it |
| IniParts.RestSays | src/config.c:761-762 | the rest of a new line says the pair if and only if it lacks nothing but the blank before the sign of an empty key |
| IniParts.NoNewKey | src/config.c:557-649 | a line that is not blank and does not set the key never sets it when a front of the new line is put behind |
| IniParts.NoNewHeader | src/config.c:557-649 | a line that is not blank and another header never becomes the header when it is put behind |
| IniJoined.PairBehind | src/config.c:766-795 | a pair written behind an open last line of its section is found if and only if that line is blank and has room for the value (or has room only for the blank before the sign of an empty key) |
| IniJoined.SectionBehind | src/config.c:804-821 | a header and a pair written behind an open last line are found if and only if that line is blank and ends no later than the header, and for a header without newline just there |
| IniJoined.LongNewHeader | src/config.c:814-820 | a set of a missing section whose header has no room for its newline cannot be read back |
| IniJoined.SetThenGetFile | src/config.c:557-867 | on every good file, the last newline missing or not, get after set gives the value if and only if section, key and value can be carried by a line, and a written header has room for its newline or the joined last line is blank and short enough |
| IniRepeated.SetThenGetAny | src/config.c:557-867 | for every file with the section: get after set gives the value if and only if a line before another section begins sets the key already, or no line does and no header of the section stands behind that |
| IniRepeated.SetThenGetAnyFile | src/config.c:557-867 | the same for files as text, for a set that joins no last line |
| IniRepeated.RepeatedSection | src/config.c:557-867 | a file with a section in two parts where a set cannot be read back |
| IniFileLaws.SetTwiceFile | src/config.c:661-867 | on a good file, the last of two sets of one key that join no last line decides the text |
| IniFileLaws.DelFileReads | src/config.c:876-1007 | for every file, the next command reads exactly the lines that a deletion has written |
| IniFileLaws.DeleteKeyFile | src/config.c:876-1007 | on a good file, deleting a key makes its get fail and changes no other get |
| IniFileLaws.DeleteSectionFile | src/config.c:876-1007 | on a good file, deleting a section makes its gets fail and changes no other get |
| IniFileLaws.DeleteMissing | src/config.c:905-934 | for every file, a delete fails if and only if none of the lines read is the header of the section |
| IniFileLaws.SetKeepsFile | src/config.c:682-867 | for every file, what the next command reads after a successful set has all other lines if and only if the file has no more lines than the array and the new line joins no last line without newline |
| IniFileLaws.LongFileSet | src/config.c:682-867 | on a longer file a set succeeds if and only if one of the lines read sets the key, and then writes the lines read with that one changed |
| IniFileLaws.LongFileDel | src/config.c:897-1007 | on a longer file a delete succeeds if and only if the header is among the first lines, and leaves what it leaves of them |
| IniFileLaws.NewlineMissing | src/config.c:804-867 | a file without final newline where a set succeeds, loses the pair and changes the value of another key |
| IniFileLaws.KeyWithEquals | src/config.c:557-867 | a set of a key with an equals sign that succeeds and cannot be read back |
| CmdOrder.OptionRequiresArg | src/libpgexporter/cmd.c:35-58 | the lookup gives the flag of the first option of that name, false without one |
| CmdOrder.PickedAll | src/libpgexporter/cmd.c:86-169 | the three passes collect every argument after argv[0] exactly once |
| CmdOrder.ReorderedPermutes | src/libpgexporter/cmd.c:84-174 | the passes fill exactly argc slots with a permutation of argv that keeps argv[0] |
| CmdOrder.PickedKinds | src/libpgexporter/cmd.c:86-169 | the first pass collects flags, the second options with their values directly behind them, the third positionals |
| CmdOrder.ReorderedTwice | src/libpgexporter/cmd.c:84-174 | reordering twice is reordering once, for every argv |
| CmdOrder.CollectFlags | src/libpgexporter/cmd.c:84-111 | the first loop fills the slots with the flags in order, within bounds |
| CmdOrder.CollectValued | src/libpgexporter/cmd.c:113-147 | the second loop, which skips the value it took along, fills the slots in order, within bounds |
| CmdOrder.CollectPlain | src/libpgexporter/cmd.c:149-169 | the third loop fills the remaining slots in order, within bounds |
| CmdOrder.Reorder | src/libpgexporter/cmd.c:84-176 | argv is overwritten with its reordering, a permutation |
| CmdParse.ParseOptions | src/libpgexporter/cmd.c:178-263 | the parser fills the result slots and stops at a positional, an unknown option, or a full result array; -1 for a missing value |
| CmdParse.CmdParse | src/libpgexporter/cmd.c:60-273 | reordering, parsing, and the filename when exactly one argument is left over |
| CmdLaws.CommandLine | src/libpgexporter/cmd.c:84-272 | for known options typed with their values in any order: all results, flags first, each value with its own option, and optind leaves exactly the positionals |
| CmdLaws.AnyInterleaving | src/libpgexporter/cmd.c:84-272 | every interleaving of the same options and positionals gives the same argv, results and optind |
| CmdNames.DashesRead | src/libpgexporter/cmd.c:92-93 | two dashes and a name, or one dash and a name without a dash, are read as that name |
| CmdNames.NamedLine | src/libpgexporter/cmd.c:84-272 | options typed by their names in the table, with their values, and positionals, in any order: flags first, then valued options with their values, then positionals; every option reported under its own name with its own value; optind leaves exactly the positionals |
| CmdNames.OptionStep | src/libpgexporter/cmd.c:183-252 | one option of the table: reported without a value, or with the next argument, or an error if that is missing or looks like an option |
| CmdNames.NameWithEquals | src/libpgexporter/cmd.c:214-240 | an option whose own name has an equals sign brings its value along, a short one only behind a single character |
| CmdNames.ParseStops | src/libpgexporter/cmd.c:173-264 | at the end, at a positional, at an unknown name, or out of result slots, the parser stops without an error |
| CmdNames.JoinedUnknown | src/libpgexporter/cmd.c:181-258 | an option typed with its value behind an equals sign stops the parser, if no name has such a sign itself |
| CmdNames.NamedExample | src/libpgexporter/cmd.c:84-272 | a long option with its value behind a positional, and a flag behind both |
| CmdValues.PickedClosed | src/libpgexporter/cmd.c:113-147 | the passes neither give a value to an option that was typed without one nor take one away |
| CmdValues.ValuesDecide | src/libpgexporter/cmd.c:84-272 | the positionals survive the parse if and only if every option that takes a value was typed with one |
| CmdValues.SwallowedPositional | src/libpgexporter/cmd.c:113-147 | a line with a trailing option without value, whose positional becomes that value |
| ConfigTransfer.Configuration.CheckRestartRequired | src/libpgexporter/configuration.c:4760-4851 | restart exactly when a structural field differs, the cache sizes are different ints, servers are gone, or a server in use has another host or port |
| ConfigTransfer.Configuration.CopyServer | src/libpgexporter/configuration.c:5061-5119 | the slot takes over the new settings; its connection survives only with the same host and port |
| ConfigTransfer.Configuration.CopyServers | src/libpgexporter/configuration.c:5000-5006 | all slots in use are overwritten, the others cleared |
| ConfigTransfer.Configuration.CopyMetric | src/libpgexporter/configuration.c:5149-5175 | the slot takes over the new metric, but for two flags and the second half of the name buffer |
| ConfigTransfer.Configuration.CopyMetrics | src/libpgexporter/configuration.c:5026-5030 | the slots from the first on are overwritten, the ones behind them stay |
| ConfigTransfer.Configuration.Transfer | src/libpgexporter/configuration.c:4853-5059 | all or nothing: denied and unchanged, or applied as a whole |
| ConfigRuns.TransferKeeps | src/libpgexporter/configuration.c:4760-5119 | no transfer changes a structural parameter, a host or port in use, or a live connection, or removes a server |
| ConfigRuns.TransferFollows | src/libpgexporter/configuration.c:4853-5175 | a compatible configuration takes effect as a whole if and only if its log prefix is the present one or another log setting changes, its history TLS files and global extensions are the present ones, and its metrics agree in what their slots keep; all other settings are taken over in any case |
| ConfigRuns.MetricTaken | src/libpgexporter/configuration.c:5149-5175 | a metric is taken over if and only if its two flags are those of its slot and its name ends within 128 characters or goes on as the old one |
| ConfigRuns.CertificateKept | src/libpgexporter/configuration.c:4853-5059 | a reload with another history certificate that is accepted, keeps the old certificate, and loses an alert |
| ConfigRuns.ReloadDecided | src/libpgexporter/configuration.c:4853-5059 | with the same structural fields, the same cache size as an int, no server gone and the same hosts and ports in use, a reload is in force; otherwise nothing changes |
| ConfigRuns.AddedServer | src/libpgexporter/configuration.c:5061-5119 | an added server is the new one without SSL, with fd -1, not new, nothing known of it, and FIPS unknown |
| ConfigRuns.ReloadDropsAlerts | src/libpgexporter/configuration.c:2161-2230 | an applied reload leaves no alerts; the alerts stay if and only if it is denied or there were none |
| ConfigRuns.TransferTwice | src/libpgexporter/configuration.c:4853-5059 | applying a configuration twice is applying it once |
| ConfigRuns.CopyTransferred | src/libpgexporter/configuration.c:2502-2625 | the copy that conf set edits transfers back to the same configuration, live connections and metrics included, except the metric names |
| ConfigRuns.ConfSetExact | src/libpgexporter/configuration.c:2685-3497 | every accepted edit but one of the metrics makes exactly its own change, except that it empties the metric names and needs another log setting to move the log prefix; it is exact if and only if neither is the case |
| ConfigRuns.ConfSetNames | src/libpgexporter/configuration.c:2503-2625 | every accepted edit empties the metric names, unless it reads the metrics again |
| ConfigRuns.NamesForgotten | src/libpgexporter/configuration.c:2503-2625 | a configuration that loses a metric name by setting its tunables to what they are |
| ConfigRuns.LinePrefixAlone | src/libpgexporter/configuration.c:3499-3524 | setting the log line prefix alone is accepted and changes nothing but that the metric names go; the answer is no change, or success if there was no prefix |
| ConfigRuns.AnswerMeans | src/libpgexporter/configuration.c:3499-3524 | restart required exactly for a denied edit, no change exactly when the text is the same and not empty |
| ConfigRuns.ConfSetDecided | src/libpgexporter/configuration.c:3495-3497 | every edit of tunables, logging, endpoints, metrics or server settings is accepted; one of the structure, the cache size, or a host or port only if it changes nothing compared, and otherwise nothing changes |
| ConfigRuns.ConfSetInForce | src/libpgexporter/configuration.c:4853-5059 | what an accepted edit of each kind has put in force |
| ConfigRuns.RunKeeps | src/libpgexporter/configuration.c:4760-5059 | over every run the structure, the parameters no transfer takes over, every host and port in use and every server survive |
| ConfigRuns.ConnectionsSurvive | src/libpgexporter/configuration.c:5061-5119 | over every run each server has the connection last made for its slot, whatever was applied or denied in between |
| Alerts.AlertTable.MergeItem | src/libpgexporter/alert_configuration.c:257-312 | in place, an item overrides the first alert of its name field by field, is appended while there is room, or is skipped without a name |
| Alerts.AlertTable.ReadItems | src/libpgexporter/alert_configuration.c:252-329 | a file is merged, or on the initial load appended, item by item |
| Alerts.LoadedExact | src/libpgexporter/alert_configuration.c:313-326 | the initial load leaves the old alerts and behind them the whole definitions of the items with a name, in order, cut off at 64 |
| Alerts.LoadedNames | src/libpgexporter/alert_configuration.c:313-326 | the initial load keeps the first 64 named items in order |
| Alerts.MergedNamesExact | src/libpgexporter/alert_configuration.c:257-312 | after any overrides: the old names by position, then the names of the items that were first with theirs, by position, cut off at 64 |
| Alerts.MergedNames | src/libpgexporter/alert_configuration.c:257-312 | after any overrides: the old names in order, then the new ones in the order they first came up, cut off at 64 |
| Alerts.MergedUnique | src/libpgexporter/alert_configuration.c:257-312 | unique names stay unique |
| Alerts.MergedFields | src/libpgexporter/alert_configuration.c:262-306 | each field is what the last override of it says, otherwise what it was, or zero for a new alert |
| Alerts.LastGivenMeans | src/libpgexporter/alert_configuration.c:257-312 | the last override of a field is the one behind which no item of that name gives it |
| Alerts.MergedTwice | src/libpgexporter/alert_configuration.c:257-312 | merging the same items again changes nothing, also when not all fit |
| Dashboards.RowsExact | scripts/generate_dashboards.py:97-99 | the row positions are the distinct y values of the panels in increasing order |
| Dashboards.RowHeightIsMax | scripts/generate_dashboards.py:111-115 | the height of a row is that of its tallest panel |
| Dashboards.Offsets | scripts/generate_dashboards.py:105-117 | the offset of a row is the sum of the heights of the lost rows down to it |
| Dashboards.Recalculate | scripts/generate_dashboards.py:83-124 | each kept panel moves up by the offset of its row and nothing else about it changes |
| Dashboards.Generate | scripts/generate_dashboards.py:146-172 | the panels of a version in template order, numbered from 1, without annotation, at the new positions of their rows |
| Dashboards.FilterExact | scripts/generate_dashboards.py:35-66 | a panel without version is kept if and only if the target is at least 13, one with a version if and only if the target is at least that, each as often as the template has it |
| Dashboards.FilterInOrder | scripts/generate_dashboards.py:61-66 | filtering keeps the order |
| Dashboards.SurvivorsTile | scripts/generate_dashboards.py:83-124 | if the template rows tile, a surviving row starts at the top plus the heights of the surviving rows above it |
| Dashboards.NeighboursMeet | scripts/generate_dashboards.py:83-124 | for every template, neighbouring surviving rows meet if and only if the template's gaps and overlaps between them cancel out |
| Dashboards.OrderKept | scripts/generate_dashboards.py:83-124 | if the template tiles, surviving rows keep their order and none moves below its template position or above the top |
| Dashboards.OrderExact | scripts/generate_dashboards.py:83-124 | for every template, of two surviving rows the upper stays above the lower if and only if the overlaps between them are less than the heights of the surviving rows between |
| Dashboards.NeverDown | scripts/generate_dashboards.py:83-124 | for every template without negative heights, no surviving row moves below its template position |
| Dashboards.OlderIsHigher | scripts/generate_dashboards.py:61-124 | for every template without negative heights, a row sits no lower in the dashboard of an older version than in that of a newer one |
| Dashboards.HeightsDecide | scripts/generate_dashboards.py:61-124 | if no panel has a negative height, no row moves below its template position and none sits lower for an older version |
| Dashboards.ShippedNeighbours | scripts/generate_dashboards.py:83-124 | the rows at 169, 170 and 185 do not meet for version 17, and do for version 14 without the middle one |

## Left out

- ArtIterate.Drain: covers fewer than 2^32 entries; with more, the loop it stands for does not end.
- ArtMap.Art.Insert: the size is unbounded; the wrap of the 64-bit counter is not modelled.
- ArtJson.ToCompactJson: how a value is printed behind its key is a parameter, because each type of value has its own printer.
- ArtJson.ToJson: as for the compact form.
- IniFileLaws.SetKeepsFile: assumes a key and a value without newline whose line fits its buffer; otherwise the new line is itself read as several lines or may fill a line up.
- IniJoined.SetThenGetFile: assumes that the new line and the name of the section fit their buffers; a longer line is cut by the formatted print and by the next read, which the line functions model but the law excludes.
- CmdLaws.CommandLine: options joined to their value by `=` are not among its items; `CmdNames.JoinedUnknown` says what becomes of them.
- ConfigRuns.RunKeeps: the size of the metrics cache is compared as a 32-bit int, so it is only shown to stay the same modulo 2^32.
- ConfigRuns.TransferFollows: the paths that are set at the start and not read again, the counters, and the tables of extension metrics are not part of the configurations compared.
- ConfigRuns.ConfSetExact: an edit is taken as it is after validation; validation may adjust a value or reject an edit for other reasons than its servers, and then nothing is transferred.
- Alerts.MergedFields: starts from parsed items with their override masks; the reading of YAML events is not modelled.
- Removal through the tree iterator.
- Creation, copying and destruction of values, `pgexporter_art_insert_with_config`, failed allocations, and the tagging of leaf pointers; a leaf is a value of key and stored word rather than an object.
- The prefix buffer of a node is a sequence of ten bytes that is replaced, not an array written byte by byte.
- The text printer of the tree.
- Opening, syncing, renaming and permissions of the configuration file; a missing file is an empty list of lines for a set.
- `config init` and `config ls`, prompts and help texts.
- Reading `pgexporter.conf`, users and admins, and what validation asks beside the hosts and ports of servers; the reloaded configuration is any validated one with at most 64 servers and 256 metrics.
- The dispatch of conf set on its keys: an edit is any change of one part of the copied configuration.
- Elements of the lists of users, alerts and endpoints beyond their counts, and the trees of query alternatives.
- Restarting the logging system, systemd notifications, locks, and other processes reading the configuration during a transfer.
- The bridge, caches, history, encryption, compression, HTTP serving, and administration commands.
- Metadata and file handling of the dashboard generator.
