# Non-Mixer: the Mixer window's bookkeeping

This project models the part of Non-Mixer's `Mixer` window (`mixer/src/Mixer.C`)
that is plain bookkeeping under the FLTK and OSC glue, and proves what it does:

- **The strip pack.** The pack is the ordered list of mixer strips, which are the children of `mixer_strips`.
  It supports `add`, both `insert`s, `move_left`, `move_right`, `remove`, `nstrips`, `track_by_number` and `track_by_name`.
  Strips are records. Their `id` stands for the strip object's identity, because the C++ code compares pointers.
  The pack is modelled on Fl_Group's rules:
  - a strip is a child at most once;
  - `find` gives the child count for a strip that is not a child;
  - `insert(o, before)` first takes `o` out of its old place, does nothing when `before` is `o` itself, and appends when `before` is not a child.
- **The group list.** It supports `add_group`, `remove_group` and `group_by_name`.
- **Unique names.** `get_unique_track_name` and `get_unique_group_name` return the name itself when it is free. Otherwise they return `name.N` for the least free N >= 1.
- **Row layout.** `rows(ideal)` decides how many rows fit, computes the strip height, sets every strip to it, and sizes the pack.
  `resize` sets the scroll area and pack sizes and then calls `rows(_rows)`. The constructor ends with a `resize`.
- **OSC strip-number rewrite.** `osc_strip_by_number` parses `client/strip#/N/rest` the way `sscanf` does, and forwards the message to `client/strip/NAME/rest`.
- **Auto-connect.** `get_auto_connect_targets` derives targets from the strips' output port names. `auto_connect` and `maybe_auto_connect_output` give group-affinity strips the first chance, and the first strip that accepts wins.
- **Text formats.** `save_translations` writes mapping lines and `load_translations` reads them back with `fscanf`. `handle(FL_PASTE)` reads a dropped `file://` URL.

Modules:
- `Options`: the Option type.
- `CText`: C text primitives, modelled on glibc `printf`/`scanf`. These are `%d` output and input, `isspace`, and the span of a scan set.
- `Strips`: strip and group records, and the Fl_Group child-list operations on sequences.
- `UniqueNames`: `name.N` and the "first free name" specification.
- `Layout`: the arithmetic of `rows`.
- `OscPath`: the strip-number path parser and printer.
- `AutoConnect`: the dispatch order, port targets and de-duplication.
- `TextFormats`: the mapping-line scanner and printer, and the drop-URL scanner.
- `MixerWindow`: the `Mixer` class. It holds the pack and the group list as `seq` fields, plus the layout fields `_rows`, `_strip_height`, the pack's flow flag, and the pack and scroll sizes. Its methods update these in place.

Where the code's intended behaviour and its actual behaviour disagree, the model follows the code:

- **Reading a mapping line back.** It would seem that a written line `A |> B` reads back as `(A, B)` whenever A has no space, bar or `>` and B has no space or newline. That is not enough.
  - The last newline in `fscanf`'s format, and the blank before `%m[^ \n]`, skip every white-space character, not just one.
  - So a B that begins with a tab, or an A on a later line that begins with white space (a tab, `\r`, `\v`, `\f`), is read differently.
  - `TextFormats.LoadSavedMappings` therefore also requires that neither A nor B begins with white space.
- **Rooted OSC addresses.** OSC addresses begin with '/'. For an address such as `/mixer/strip#/1/gain`, the leading `%m[^/]` matches nothing, `sscanf` returns 0, and the handler returns -1. So the rewrite applies only to paths whose first segment is not empty. The model keeps this behaviour, and `OscPath.ParseRejectsRootedPath` states it.
- **`_strip_height` in `rows`.** The code writes `if ( _strip_height != sh );` with a stray semicolon, so the block after it always runs. `_strip_height` is always updated, and so is the model's `stripHeight`.

## Model

| member | source | states |
|---|---|---|
| MixerWindow.Mixer.constructor | mixer/src/Mixer.C:491-591 | The mixer keeps the given minimum strip height. It starts with no strips and no groups and `_rows` = 1. After the closing `resize(X,Y,W,H)`, the scroll area is W by H-42, the pack is 0 wide and as tall as the strip height, and the strip height is the scroll height less 18. |
| MixerWindow.Mixer.Resize | mixer/src/Mixer.C:746-755 | The scroll area becomes W by H-42. The strips are then laid out again for the old `_rows` setting, starting from a pack H-60 high. |
| MixerWindow.Mixer.Rows | mixer/src/Mixer.C:850-904 | Sets `_rows` to `ideal` (not to the rows that fit), and `_strip_height` to the computed height. Every strip gets that height. The pack flows exactly when more than one row fits. With several rows, the pack is the scroll width less 18 wide and keeps its height. With one row, it is as wide as the strips plus spacing and as tall as a strip. The strip count and the groups do not change. |
| MixerWindow.Mixer.RowsThatFit | mixer/src/Mixer.C:856-878 | The row count and strip height that `rows` computes are those of the layout functions. The pack flows exactly when more than one row fits. |
| MixerWindow.Mixer.SetHeights | mixer/src/Mixer.C:880-889 | The loop gives every strip the height `sh` and sums the strips' widths plus spacing into `tw`. |
| MixerWindow.Mixer.LaidOutAgain | mixer/src/Mixer.C:746-755 | Laying out again with the same rows setting, as `resize` does with `rows(_rows)`, leaves the strips, heights and pack size as they were. |
| Layout.ActualRows | mixer/src/Mixer.C:853-873 | The row count is at least 1. It is above 1 only when it is at most `ideal` and that many rows of minimum-height strips fit. No larger count up to `ideal` would fit. |
| Layout.CDiv | mixer/src/Mixer.C:858 | C integer division and float-to-int conversion both truncate toward zero. The quotient is bounded by the dividend on both sides, for either sign. |
| Layout.StripHeight | mixer/src/Mixer.C:863-877 | The strip height: with r > 1 rows, the scroll height divided by r less 2*(r-2), truncated toward zero as the assignment of the float to `sh` does; with one row, the scroll height less 18. Its properties are those of StripHeightFills. |
| Layout.StripHeightFills | mixer/src/Mixer.C:866-870 | With r > 1 rows, r strips of the computed height fill the scroll height, to within less than one pixel per row, once each row gets 2*(r-2) pixels of spacing. |
| Layout.WithHeight | mixer/src/Mixer.C:880-886 | Every strip takes the new height, and the strip list is otherwise unchanged. |
| Layout.TotalWidth | mixer/src/Mixer.C:880-889 | The `tw` the loop accumulates: each strip's width plus the pack's spacing of 2, summed over the strips in order. |
| Layout.TotalWidthWithHeight | mixer/src/Mixer.C:880-889 | Setting the strips' height does not change the row width that `tw` accumulates. |
| MixerWindow.Mixer.Add | mixer/src/Mixer.C:757-766 | The strip goes to the end of the pack, leaving any old place, and takes the current `_strip_height`. Strip identities stay distinct, and groups and layout are unchanged. |
| MixerWindow.Mixer.Insert | mixer/src/Mixer.C:783-789 | The pack becomes Fl_Group::insert's result for the strip and the strip before which it goes. Identities stay distinct. |
| MixerWindow.Mixer.InsertAt | mixer/src/Mixer.C:790-796 | Inserts in front of the child at index i, or at the end when i is not a child's index. |
| MixerWindow.Mixer.MoveLeft | mixer/src/Mixer.C:798-808 | Each case is stated:<br>- a strip at index i > 0 changes places with its left neighbour;<br>- the first strip stays;<br>- a strip not in the pack is put in front of the last strip.<br>For a strip in the pack, the multiset of strips is unchanged. |
| MixerWindow.Mixer.MoveRight | mixer/src/Mixer.C:810-820 | A strip at index i < n-1 changes places with its right neighbour. The last strip, or a strip not in the pack, leaves the pack unchanged. |
| MixerWindow.Mixer.Remove | mixer/src/Mixer.C:822-830 | The strip leaves the pack. Nothing changes when the strip is not in it. |
| Strips.Placed | mixer/src/Mixer.C:783-789 | Fl_Group::insert(o, before): nothing changes when `before` is `o` itself and `o` is a child; otherwise `o` leaves its old place and goes in front of `before`, or at the end when `before` is no child. Its properties are the Placed* lemmas below. |
| Strips.Removed | mixer/src/Mixer.C:822-827 | Fl_Group::remove(o): the child at `o`'s first position leaves the list; a strip that is no child leaves the list as it was. Its properties are RemovedSpec. |
| Strips.PlacedPermutes | mixer/src/Mixer.C:783-789 | Inserting a strip that is already a child permutes the pack. Inserting a new strip adds exactly that strip. |
| Strips.PlacedPosition | mixer/src/Mixer.C:783-789 | After an insert, the strip stands right in front of `before` when `before` is another child, and last otherwise. |
| Strips.PlacedKeepsOthers | mixer/src/Mixer.C:783-789 | An insert leaves the other strips in their relative order. |
| Strips.PlacedDistinct | mixer/src/Mixer.C:783-789 | An insert never makes a strip a child twice. |
| Strips.PlacedSwapsLeft | mixer/src/Mixer.C:798-805 | Inserting the strip at i in front of its left neighbour swaps the two. |
| Strips.PlacedSwapsRight | mixer/src/Mixer.C:810-817 | Inserting the strip at i in front of the strip at i+2, or at the end, swaps it with its right neighbour. |
| Strips.RemovedSpec | mixer/src/Mixer.C:822-827 | Removing a strip keeps the others distinct and leaves no strip with that identity. It removes exactly one strip when the strip was a child, and changes nothing otherwise. |
| Strips.IndexOf | mixer/src/Mixer.C:798-813 | Fl_Group::find gives the first position that holds the strip. It gives the child count when no position holds it. |
| MixerWindow.Mixer.NStrips | mixer/src/Mixer.C:906-910 | The number of children of the pack. |
| MixerWindow.Mixer.TrackByNumber | mixer/src/Mixer.C:926-934 | No strip exactly when n < 0 or n >= nstrips(). Otherwise the n-th strip. |
| MixerWindow.Mixer.TrackByName | mixer/src/Mixer.C:912-924 | No strip exactly when no strip has the name. Otherwise a strip with the name that has no strip of that name after it. |
| MixerWindow.Mixer.GroupByName | mixer/src/Mixer.C:949-959 | No group exactly when no group has the name. Otherwise a group with the name that has no group of that name before it. |
| MixerWindow.Mixer.AddGroup | mixer/src/Mixer.C:728-735 | The group is appended to the list. The strips are unchanged, so strip identities stay distinct. |
| MixerWindow.Mixer.RemoveGroup | mixer/src/Mixer.C:737-744 | Every entry for the group object leaves the list. The others keep their order. The strips are unchanged, so strip identities stay distinct. |
| Strips.WithoutGroup | mixer/src/Mixer.C:740 | The list left by std::list::remove holds exactly the entries for other group objects, and is no longer than before. WithoutGroupOfConcat and WithoutGroupOfOne fix the order and number of the entries kept. |
| Strips.WithoutGroupOfConcat | mixer/src/Mixer.C:740 | Removal works entry by entry: removing from two runs one after the other gives the two results one after the other, so the kept entries stay in their order. |
| Strips.WithoutGroupOfOne | mixer/src/Mixer.C:740 | One entry is dropped exactly when it is for the removed group object, and kept as it is otherwise. With WithoutGroupOfConcat, this gives the result for every list. |
| Strips.WithoutAddedGroup | mixer/src/Mixer.C:728-744 | `remove_group` undoes `add_group` for a group that was not in the list. |
| MixerWindow.Mixer.UniqueTrackName | mixer/src/Mixer.C:936-947 | Returns a name no strip has. It is `name` itself when that is free, otherwise `name.i` with every `name.j` for 1 <= j < i taken. The loop ends because only finitely many of the `name.j` can be taken. |
| MixerWindow.Mixer.UniqueGroupName | mixer/src/Mixer.C:961-973 | The same rule as for track names, against the group list. |
| UniqueNames.FirstFreeNameUnique | mixer/src/Mixer.C:936-973 | The first-free-name rule determines the name: two names that both satisfy it are equal. |
| UniqueNames.SuffixedInjective | mixer/src/Mixer.C:945 | Names written `%s.%d` for different numbers differ. |
| UniqueNames.Suffixed | mixer/src/Mixer.C:945 | The name `snprintf("%s.%d")` writes: the name, a dot, and the number in decimal. |
| UniqueNames.FewSuffixesTaken | mixer/src/Mixer.C:944-945 | When `name.1` to `name.i` are all taken, there are at least i names in use. This bounds the loop. |
| CText.FormatNat | mixer/src/Mixer.C:945 | `%d` of a natural number writes one or more digits, with a leading zero only for 0. |
| CText.DigitsValueOfFormatNat | mixer/src/Mixer.C:945 | The digits `%d` writes denote the number. |
| CText.ScanFormatInt | mixer/src/Mixer.C:616 | `%d` reads back what `%d` writes, up to the first non-digit. |
| CText.ScanInt | mixer/src/Mixer.C:616 | What `%d` consumes: leading white space, an optional sign, then every digit that follows, at least one. It gives the value, negated after a minus sign, and the count of characters read; no conversion when no digit follows. |
| CText.ScanIntBeforeSlash | mixer/src/Mixer.C:616 | `%d` never reads past the '/' that follows the number in the format, so what comes after it cannot change the number read. |
| CText.SpanOfConcat | mixer/src/Mixer.C:616 | A scan set `%[...]` takes exactly the leading run of accepted characters. |
| OscPath.Parse | mixer/src/Mixer.C:616-617 | A parsed path has a non-empty client without '/', followed by "/strip#/", and a non-empty rest without a newline. ParseSound and ParseOfParts tie the number and the rest to the path. |
| OscPath.ParseSound | mixer/src/Mixer.C:616 | A parsed path is exactly the client, "/strip#/", a number text that `%d` reads as the parsed number, '/', the rest, and then nothing or a newline. |
| OscPath.ParseOfParts | mixer/src/Mixer.C:616 | Conversely, any such path parses into those parts, for every number text `%d` reads up to the '/' (a sign, leading zeros or blanks included). |
| OscPath.ParseRejectsRootedPath | mixer/src/Mixer.C:616-617 | A path that begins with '/' never parses, because `%m[^/]` needs at least one character; the handler then returns -1. |
| OscPath.ParseNumberedPath | mixer/src/Mixer.C:616 | A path `client/strip#/N/rest`, with any text after a newline, parses as (client, N, rest). |
| OscPath.ParseRejectsNamedPath | mixer/src/Mixer.C:616-629 | A rewritten `client/strip/NAME/rest` path never has the strip-number shape. |
| OscPath.NamedPath | mixer/src/Mixer.C:629 | The path `asprintf("%s/strip/%s/%s")` writes: client, "/strip/", the strip name, '/', the rest. |
| MixerWindow.Mixer.OscStripByNumber | mixer/src/Mixer.C:607-638 | The handler returns -1 exactly when the path does not parse. For a parsed path, it drops the message exactly when no strip has that number. Otherwise it forwards it to `client/strip/NAME/rest`, with the parsed client and rest and the name of strip N, whichever way N was written (`+1`, `01` and ` 1` included). A forwarded path is never a strip-number path. |
| MixerWindow.Mixer.OscStripByNumberRewrites | mixer/src/Mixer.C:607-638 | A message for strip n goes to `client/strip/<name of strip n>/rest`. It is dropped when n is out of range. |
| AutoConnect.Target | mixer/src/Mixer.C:1134-1143 | The derived target always contains a '/'. |
| AutoConnect.TargetOf | mixer/src/Mixer.C:1134-1143 | The port `dir/leaf` gives `dir` when `dir` contains '/', and `dir/mains` otherwise. |
| AutoConnect.CollectPorts | mixer/src/Mixer.C:1127-1130 | The output port names gathered by walking the strips from the last to the first, each strip adding its own ports. |
| AutoConnect.Targets | mixer/src/Mixer.C:1132-1145 | Each gathered port is mapped to its target, in order: one target per port, the target of the port at the same position. |
| AutoConnect.CollectPortsMembers | mixer/src/Mixer.C:1127-1130 | The gathered ports are exactly the output ports of the strips. |
| AutoConnect.CollectPortsOfConcat | mixer/src/Mixer.C:1127-1130 | Ports are gathered from the last strip to the first. |
| AutoConnect.Dedup | mixer/src/Mixer.C:1146-1149 | The result has no duplicates and the same elements as the input. |
| AutoConnect.DedupKeepsFirstAppearanceOrder | mixer/src/Mixer.C:1146-1149 | The result keeps the order in which the targets first appear. |
| MixerWindow.Mixer.AutoConnectTargets | mixer/src/Mixer.C:1121-1155 | The result is the de-duplicated targets of the ports gathered from the last strip to the first. It holds the target of every output port and no target twice. |
| AutoConnect.IndicesWith | mixer/src/Mixer.C:1166-1181 | Each index it lists is the index of a strip. |
| AutoConnect.IndicesWithSound | mixer/src/Mixer.C:1166-1181 | Each listed strip is of the kind asked for, and the indices increase. |
| AutoConnect.IndicesWithComplete | mixer/src/Mixer.C:1166-1181 | Every strip of the kind asked for is listed. |
| AutoConnect.DispatchOrder | mixer/src/Mixer.C:1166-1182 | The order in which strips are asked: the group-affinity strips in index order, then the other strips in index order. Its properties are DispatchOrderPermutes and DispatchOrderAffinityFirst. |
| AutoConnect.DispatchOrderPermutes | mixer/src/Mixer.C:1157-1183 | Every strip is asked exactly once: the order lists each strip index once and nothing else. |
| AutoConnect.DispatchOrderAffinityFirst | mixer/src/Mixer.C:1157-1213 | No group-affinity strip is asked after a catch-all, and strips of one kind are asked in index order. |
| AutoConnect.IndicesWithPrefix | mixer/src/Mixer.C:1195-1211 | Stopping early asks a prefix of each kind's order. |
| MixerWindow.Mixer.AutoConnect | mixer/src/Mixer.C:1157-1183 | Nothing is asked while a project opens. Otherwise the strips are asked in the dispatch order. |
| MixerWindow.Mixer.MaybeAutoConnectOutput | mixer/src/Mixer.C:1185-1213 | Nothing is asked while a project opens. Otherwise it asks a prefix of the dispatch order, in which every strip but the last declined. It ends with the first strip that accepts, or asks every strip when none accepts. |
| MixerWindow.Mixer.AskUntilAccepted | mixer/src/Mixer.C:1195-1211 | One loop asks the strips of one kind in index order, and stops at the first that accepts. |
| TextFormats.ScanMapping | mixer/src/Mixer.C:654 | One `fscanf` call that returns 2 stores a non-empty `from` without a space, bar or '>', and a non-empty `to` without ' ' or newline. It consumes input and leaves the rest starting at a non-space. |
| TextFormats.ScanMappingSound | mixer/src/Mixer.C:654 | What a successful call takes is the text itself, in order: the first field, white space, the arrow, white space, the second field, white space, then the rest it leaves. |
| TextFormats.LoadMappings | mixer/src/Mixer.C:654-659 | The pairs the loop passes to `add_translation`: one scanned pair per iteration, up to the first call that does not return 2. |
| TextFormats.MappingLine | mixer/src/Mixer.C:680-683 | The line `fprintf` writes for one translation: the first field, a blank, the arrow, a blank, the second field and a newline. |
| TextFormats.MappingsText | mixer/src/Mixer.C:675-683 | The file `save_translations` writes: one mapping line per translation, in order. |
| TextFormats.ScanMappingLine | mixer/src/Mixer.C:654-682 | A written line (first field A, the arrow, second field B, a newline) scans back as (A, B), leaving the next line unread. |
| TextFormats.LoadAfterSaved | mixer/src/Mixer.C:640-688 | Reading saved lines gives back the saved pairs, then reads on after them. |
| TextFormats.LoadSavedMappings | mixer/src/Mixer.C:640-688 | `load_translations` reads back exactly the (first field, second field) pairs `save_translations` wrote, when no field is empty, the first has no space, bar or '>', the second has no ' ' or newline, and neither begins with white space. |
| TextFormats.ScanDrop | mixer/src/Mixer.C:1099 | `sscanf` returns 1, 0 or EOF. It returns 1 exactly when it stores a file name, which is non-empty, has no line break, and follows "file://" in the text. |
| TextFormats.AcceptsDropAsWritten | mixer/src/Mixer.C:1099 | The test as written: the drop goes on whenever `sscanf` does not return 0, EOF included. |
| TextFormats.EmptyDropAcceptedAsWritten | mixer/src/Mixer.C:1099-1103 | The test as written lets the empty text, and "file://" alone, through without a file name. |
| TextFormats.DroppedFile | mixer/src/Mixer.C:1099-1110 | The corrected test gives a file name exactly when `sscanf` converted one, and the name follows "file://" in the text. |
| TextFormats.DroppedFileOfUrl | mixer/src/Mixer.C:1099 | `file://PATH`, followed by the end of the text or a line break, gives PATH. |

## Left out

- The FLTK widget construction, the menu bar and its callbacks, tooltips, redraws and focus are not modelled. They are toolkit-bound UI.
- Timers and feedback (`update_frequency`, `update_cb`, `send_feedback_cb`, `send_feedback`) are not modelled. They are event-loop plumbing.
- The OSC endpoint, NSM and project handling are not modelled: `init_osc`, `say_hello`, the hello handlers, the `command_*` functions, `save`, `snapshot`, and the options files. They involve the network, the file system and foreign libraries. The `lo_send_message` of `osc_strip_by_number` is the `Forwarded` outcome.
- The `fopen`, `fclose` and `add_translation`/`get_translation` calls of the translation functions are not modelled. The file's text is a parameter, and so is the list of pairs: the result of `LoadMappings`, and the input of `MappingsText`.
- Strip internals are not modelled. These are `update_group_choice` (the loops in `add_group`/`remove_group`), `auto_connect_outputs`, `Mixer_Strip::maybe_auto_connect_output`, `import_strip` and `unescape_url`. A strip's output ports are a field of its record. A strip's acceptance of a port is a function parameter.
- Fl_Group::resize is not modelled. The window's own resize also rescales its children. The model keeps the strips' widths and lets `rows` set their heights.
- `event_inside`, `contains`, `find_strip`, `new_strip`, `handle_dirty` and `quit` are not modelled. They are toolkit queries and one-line wrappers.
- MixerWindow.Mixer.InsertAt: FLTK's `child(i)` does not check its bound. `move_right` on the next-to-last strip calls `insert(ms, nstrips())`. The model takes an out-of-range child to be "no strip", which appends.
- MixerWindow.Mixer.UniqueTrackName: does not model the 256-byte `pat` buffer. The `strcpy` of a longer name overflows it, and `snprintf` truncates. Names are taken to be short.
- MixerWindow.Mixer.UniqueGroupName: the same 256-byte buffer limit is not modelled.
- MixerWindow.Mixer.AutoConnectTargets: requires every output port name to contain '/'. The code writes through the null pointer from `rindex` otherwise.
- MixerWindow.Mixer.Rows: the float division is modelled as exact division truncated toward zero. Float rounding of very large heights, and `int` overflow, are not modelled.
- OscPath.Parse: `%d` overflow is not modelled. The number is unbounded.
- TextFormats.LoadSavedMappings: the round trip is shown by field position only, not for the direction of a translation. `save_translations` prints what `get_translation(i, &to, &from)` stores in `to` as the first field (Mixer.C:680-682), and `load_translations` passes the first field to `add_translation` as `from` (Mixer.C:654-656). Whether a translation keeps its direction over a save and a load depends on the order of `get_translation`'s out-parameters in OSC::Endpoint, which is not part of this model.

## Findings

| source | as written | input that shows it | evidently intended | confidence | as-written member | corrected member |
|---|---|---|---|---|---|---|
| mixer/src/Mixer.C:1099 | `if ( ! sscanf( text, "file://%m[^\r\n]\n", &file ) )` rejects a drop only when `sscanf` returns 0. | The drop text "" (or "file://"): `sscanf` returns EOF (-1), the test passes, and the unset `file` goes to `unescape_url` and `import_strip`. | Accept the drop only when `sscanf` returns 1, which means it stored a file name. | not executed | TextFormats.AcceptsDropAsWritten, TextFormats.EmptyDropAcceptedAsWritten | TextFormats.DroppedFile, TextFormats.DroppedFileOfUrl |
