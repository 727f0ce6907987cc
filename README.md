# rainbow-cm clipboard manager: the history, the synchronisation and the menu, in Dafny

rainbow-cm keeps a history of the texts placed in the PRIMARY and CLIPBOARD
selections. It stores the history in a binary file and keeps the two
selections synchronised. It shows the history as a popup menu that can be
narrowed by typing. This project models four parts of it and proves what each
part promises:

- **The history store** (`src/history.c`). Module `History` defines the history
  list as values: dedup insertion at the front, truncation that spares pinned
  entries, clearing, and the plain-text export. Module `HistoryFile` defines the
  binary file format with an encoder, a decoder and their round trip. Class
  `HistoryStoreModule.HistoryStore` holds the list and the file and updates them
  in place, with loops. Module `Utf8` defines UTF-8 as in section 4 of RFC 3629
  and `validate_utf8_text` on top of it.
- **The clipboard state machine** (`src/main.c`, lines 91-307). Module
  `Selection` holds pure functions for `update_clipboard` (actions RESET, SET
  and CHECK) and for `check_clipboards`. Class `Selection.ClipboardManager`
  updates the saved texts, `last_text` and the deferred-check flag in place. It
  records every write into a selection and hands every remembered text to the
  history store.
- **The preference table** (`src/preferences.c`). Class `Preferences.PrefTable`
  holds `myprefs[]`, `dummy[0]`, `keylist[]` and the int mirror as arrays. It
  provides lookup, the int and string setters and getters, `pref_mapper`,
  `set_key_entry`, `set_keys_from_prefs` (with its duplicate-hotkey clearing)
  and `check_sanity`. Each method is proved against a function on the table's
  contents.
- **The history menu** (`src/history-menu.c.h`). Module `Labels` defines how an
  entry's text becomes a label: the glyphs for tab, newline and space, the
  ellipsizing modes with the tooltip, and the removal of line breaks. Module
  `HistoryMenu` adds the rest:
  - the layout of the menu: unpinned items, then a separator, then pinned items, each group in history order;
  - the bold or italic mark;
  - the search match and the first matching item;
  - the BackSpace cut on UTF-8 text;
  - class `HistoryMenu.MenuView`, which changes the search string and item visibility in place.

C strings are byte sequences. A C string read from a buffer is the part before
its first NUL (`Common.CStr`). NULL pointers are `None`.

## Model

| member | source | states |
|---|---|---|
| Common.CStrLen | src/main.c:215 | the length `strlen` gives: the prefix it measures holds no NUL, and the byte after it is NUL or the end |
| Common.IsSpace | src/main.c:100 | defines the C-locale `isspace` test: space, tab, newline, vertical tab, form feed and carriage return |
| Common.Reverse | src/history.c:140 | `g_list_reverse`, also at src/history-menu.c.h:602-603: the result has the length of the list, and element i is element |s| - 1 - i of the input |
| Common.Unsigned32 | src/history.c:305-306 | the `guint` an int32 preference becomes when assigned to one: the value below 2^32 that is congruent to it modulo 2^32 |
| Common.Unsigned32Unique | src/history.c:305-306 | no other value below 2^32 is congruent to the int32, so the conversion is determined |
| Common.Unsigned32Cases | src/history.c:305-306 | a non-negative value keeps its value and a negative one becomes 2^32 + x |
| Utf8.FirstSplit | src/history.c:57-69 | a non-empty valid string starts with one UTF-8 character of 1 to 4 octets, and the rest is valid |
| Utf8.CharLen | src/history.c:57-69 | the length of the well-formed UTF-8 character that starts the text, at most 4 and at most the text length, or 0 when none starts there; `Utf8.CharLenMatchesGrammar` ties it to the RFC 3629 grammar |
| Utf8.ValidPrefixLen | src/history.c:57-69 | the offset where the `g_utf8_validate` scan inside `validate_utf8_text` stops, never past the end; `Utf8.ValidPrefixIsValid` and `Utf8.ValidPrefixIsLongest` show it is the longest valid prefix |
| Utf8.CharLenMatchesGrammar | src/history.c:57-69 | the decoder's character length judged from the lead octet agrees with the RFC 3629 grammar, in both directions |
| Utf8.ValidPrefixIsValid | src/history.c:57-69 | the prefix where `g_utf8_validate` stops is valid UTF-8 |
| Utf8.ValidPrefixIsLongest | src/history.c:57-69 | no longer prefix is valid, so the stop point is the longest valid prefix |
| Utf8.ValidIffFullPrefix | src/history.c:57-69 | a string is valid exactly when the scan reaches its end |
| Utf8.ValidBeforeNul | src/history.c:57-69 | a valid string stays valid when cut at its first NUL |
| Utf8.ValidateUtf8Text | src/history.c:57-69 | defines `validate_utf8_text`: 0 for NULL or len <= 0; otherwise the text is cut at `len` and validated up to its first NUL, and the result is `len` when that part is valid and the length of its longest valid prefix when it is not |
| Utf8.ValidateUtf8TextSpec | src/history.c:57-69 | `validate_utf8_text` gives 0 for NULL or len <= 0; it keeps the whole length when the text before its NUL is valid; otherwise it gives the longest valid prefix before the NUL |
| Utf8.ValidateKeepsValid | src/history.c:57-69 | valid text passes unchanged |
| Utf8.ValidateIdempotent | src/history.c:57-69 | validating the kept prefix again keeps all of it |
| History.Keep | src/history.c:361-369 | defines the entries one export pass visits: those whose pinned state is the pass's, in list order |
| History.PinnedOnly | src/history.c:326-338 | defines the list `clear_history` leaves: its pinned entries, in their order |
| History.KeepMembers | src/history.c:361-369 | the entries kept for one pass of the export are entries of the history with the pass's pinned state |
| History.KeepAppend | src/history.c:361-369 | filtering by pinned state distributes over concatenation |
| History.KeepSplitsLength | src/history.c:326-338 | the pinned and unpinned entries together number the whole history |
| History.KeepIdempotent | src/history.c:326-338 | filtering twice is filtering once |
| History.RemoveUnpinned | src/history.c:330-337 | removing one unpinned entry leaves the pinned entries as they were |
| History.FirstMatch | src/history.c:237-256 | -1 for a NULL text; otherwise the first index whose text entry equals the text, and -1 when there is none |
| History.NewTextEntry | src/history.c:219-231 | defines the entry `new_clip_item(CLIP_TYPE_TEXT, strlen(t), t)` makes, with the flags set at src/history.c:282-285: type TEXT, the given flags and a copy of the text |
| History.AddText | src/history.c:262-290 | defines the list `history_add_text_item` builds before truncating: the first TEXT entry whose C string equals the text is unlinked and put in front unchanged; with none, a new TEXT entry with the given flags goes in front |
| History.AddTextFront | src/history.c:262-293 | the added text is at the front; a duplicate is moved there, which keeps the length and the multiset; otherwise a new entry comes first and the old list follows; entries with other texts keep their order |
| History.MoveToFrontMultiset | src/history.c:273-279 | moving an entry to the front permutes the list |
| History.AddTextKeepsUnique | src/history.c:262-293 | the texts stay pairwise distinct, and the added text occurs exactly once |
| History.DropFromEnd | src/history.c:308-316 | defines the backward walk of `truncate_history`: from the last entry towards the second, each unpinned entry is removed while more must go, and pinned ones stay where they are |
| History.TruncateHistory | src/history.c:305-317 | defines `truncate_history` for a limit: a list within it is kept; otherwise the head is kept and the walk drops up to `length - limit` unpinned entries after it |
| History.DropFromEndShape | src/history.c:307-317 | scanning from the end removes the last k unpinned entries and keeps a prefix plus the pinned entries after it |
| History.TruncateShape | src/history.c:302-317 | the result is a prefix of the history followed by the pinned entries after it; the first entry always survives; a history within the limit is untouched; otherwise min(excess, unpinned after the head) entries are dropped |
| History.TruncateKeepsPinned | src/history.c:309-316 | truncation never removes a pinned entry |
| History.TruncateBound | src/history.c:302-317 | after truncation the history is within the limit, or every entry but the head is pinned; it is never cut below the limit |
| History.TruncateKeepsUnique | src/history.c:302-317 | truncation keeps the texts pairwise distinct |
| History.AddTextItem | src/history.c:262-293 | defines `history_add_text_item` with the `truncate_history` call it ends with |
| History.AddTextItemProperties | src/history.c:262-293 | after add-then-truncate the text is at the front, uniqueness is kept, and the pinned entries are those of the list before truncation |
| History.ClearHistoryProperties | src/history.c:326-344 | clearing keeps exactly the pinned entries, in order; clearing again changes nothing; uniqueness is kept |
| History.Separator | src/history.c:373-377 | the separator between exported texts is 84 bytes |
| History.JoinTexts | src/history.c:371-380 | defines the export's joining: the texts with the 84-byte separator between neighbours and none before the first |
| History.Texts | src/history.c:379 | defines what `fprintf(fp, "%s", c->text)` writes per entry: its text up to the first NUL |
| History.ExportText | src/history.c:350-388 | defines the file `save_history_as_text` writes: the texts of the unpinned entries, then those of the pinned ones, joined by the separator |
| History.PassesNext | src/history.c:361-382 | each pass of the export appends the texts of the entries with that pass's pinned state |
| History.JoinTextsLength | src/history.c:371-380 | exported text length is the sum of the texts plus 84 per separator |
| History.ExportTextLength | src/history.c:350-388 | the export's length is the unpinned texts, the pinned texts and one separator between each two texts |
| HistoryFile.Magic | src/history.c:179-184 | defines the 32-byte magic block: "1.0ParcelliteHistoryFile" padded with NULs |
| HistoryFile.U16Reads | src/history.c:112-117 | a 16-bit field reads back what was written |
| HistoryFile.U32Reads | src/history.c:104-110 | a 32-bit field reads back what was written |
| HistoryFile.TextHead | src/history.c:197 | defines the struct's `text[8]` as written for an entry: its first 8 text bytes, padded with zeros |
| HistoryFile.Header | src/history.c:197 | defines the 32 bytes `fwrite(c, sizeof(struct history_item), 1, f)` writes: len, type, flags, 16 zero reserved bytes and `text[8]` |
| HistoryFile.Frame | src/history.c:195-198 | defines one record: the size `len + 36` wrapped to 32 bits, the header, then the text |
| HistoryFile.Frames | src/history.c:187-200 | defines the records `save_history` writes: one per entry with a non-empty text, in list order |
| HistoryFile.Encode | src/history.c:179-204 | defines the whole file: the magic block, the records, then the 4-byte zero terminator |
| HistoryFile.FrameLayout | src/history.c:187-200 | a record is: size (text + 36), text length, type, flags, then the text at offset 36 |
| HistoryFile.FramesSnoc | src/history.c:187-200 | appending an entry appends its record, unless its text is empty |
| HistoryFile.WriteHistoryFile | src/history.c:155-212 | the loop over the history writes exactly `Encode(h)`: magic, one record per entry with text, the zero terminator |
| HistoryFile.TextBuffer | src/history.c:109-131 | defines the `end + 13` bytes from `c->text` on in the `g_malloc0(size + 1)` block once the text is read: the `end` text bytes, the NUL stored at `text[end]`, what the struct read left at offsets up to 8, then zeros |
| HistoryFile.ReadRecord | src/history.c:101-135 | one pass of the reading loop: a missing or zero size ends the file, and so does a struct or a text cut short; an empty text, or a length field more than 12 bytes past the text, drops the record; otherwise the buffer up to the length field is validated, and a result of 0 drops the record; every record read or dropped moves forward within the file |
| HistoryFile.ReadKeepsLengthInBlock | src/history.c:109-131 | a record of size 37 with the text "a" and a length field of 2 is kept as "a" followed by the NUL the reader stored, as the C reader keeps it |
| HistoryFile.DecodeFrom | src/history.c:101-140 | defines the entries the loop collects from an offset on: the records it keeps, in file order, until it stops |
| HistoryFile.DecodeFile | src/history.c:77-146 | defines the list `read_history` reads from a file: none when the file is shorter than the magic block (whose content is not compared), otherwise the records from offset 32 on |
| HistoryFile.ReadFields | src/history.c:104-133 | a well-formed record reads back as its entry |
| HistoryFile.DecodeTerminator | src/history.c:104-107 | a zero size ends the file |
| HistoryFile.DecodeStored | src/history.c:77-146 | records laid out back to back decode to their entries |
| HistoryFile.DecodeEncode | src/history.c:77-212 | reading what `save_history` wrote gives back the history, for non-empty entries whose text fits the 32-bit size field (length + 36 < 2^32) and is valid UTF-8 before its first NUL; bytes after that NUL, as in "a\0b", come back too |
| HistoryFile.DecodedStorable | src/history.c:119-133 | every entry read from a file under 4 GiB is non-empty, fits the 32-bit fields, and its text before the first NUL is valid UTF-8, so it can be saved again |
| HistoryFile.LoadSaveLoad | src/history.c:77-212 | for a file under 4 GiB, load, save and load again gives what the first load gave |
| HistoryStoreModule.HistoryStore.constructor | src/history.c:25 | a store starts with an empty list and the given file |
| HistoryStoreModule.HistoryStore.FindDuplicateTextItem | src/history.c:237-256 | the loop returns the index of the first text entry that equals the text, or -1 |
| HistoryStoreModule.HistoryStore.Save | src/history.c:155-212 | the file of a writable store becomes the encoding of the list; the list is unchanged |
| HistoryStoreModule.HistoryStore.Truncate | src/history.c:302-322 | the list becomes `TruncateHistory` under the unsigned limit; the file is saved when `save_history` is on |
| HistoryStoreModule.HistoryStore.AddTextItem | src/history.c:262-293 | NULL changes nothing; otherwise the list becomes add-then-truncate, and it is saved when `save_history` is on |
| HistoryStoreModule.HistoryStore.Clear | src/history.c:326-344 | the list keeps only its pinned entries, and it is saved when `save_history` is on |
| HistoryStoreModule.HistoryStore.ReadHistory | src/history.c:77-146 | with no file nothing changes; otherwise the list becomes the reverse of the old list followed by the decoded records |
| HistoryStoreModule.HistoryStore.SaveAsText | src/history.c:350-388 | returns 0; when the file opens, it writes the export text |
| HistoryStoreModule.ReadRecords | src/history.c:101-140 | the prepend loop and the final reverse give the reverse of the old list followed by the decoded file |
| HistoryStoreModule.ExportPass | src/history.c:363-381 | one pass appends the texts of the entries with the pass's pinned state, with the separators the `first` flag calls for |
| HistoryStoreModule.TruncateList | src/history.c:305-317 | the loop from the end computes `TruncateHistory` |
| Selection.Worth | src/main.c:96-109 | defines the `ignore_whiteonly` test on a present text: without it every text passes; with it, a text passes when it holds a byte that is not C-locale white space |
| Selection.Tracked | src/main.c:173-177 | defines which buffers `update_clipboard` acts on: PRIMARY when `track_primary_selection` is set, CLIPBOARD when `track_clipboard_selection` is set; any other call returns NULL |
| Selection.Returned | src/main.c:249 | defines what `update_clipboard` returns: the buffer's saved text after the call when the buffer is tracked, otherwise NULL (src/main.c:177) |
| Selection.CheckedText | src/main.c:213-219 | defines the text a check keeps of what the buffer offers: cut to the length `validate_utf8_text(text, strlen(text))` gives, and rejected when that is 0 |
| Selection.StoreText | src/main.c:114-139 | defines `save_and_set_clipboard_text`: the text (or "" for NULL) is written only when `really_set` is on; it becomes the buffer's saved text and `last_text` |
| Selection.Act | src/main.c:179-244 | defines the switch of `update_clipboard`: RESET stores NULL and writes ""; SET stores a differing text; CHECK follows the enabled test, the PRIMARY deferral, the refill of an empty buffer, and saves a new acceptable text without writing it |
| Selection.Update | src/main.c:163-250 | defines `update_clipboard`: an untracked buffer changes nothing; otherwise the switch runs and a non-NULL `last_text` is handed to the history |
| Selection.UpdateBoth | src/main.c:254-259 | defines `update_clipboards`: the same action on PRIMARY, then on CLIPBOARD |
| Selection.Synchronizing | src/main.c:268-275 | defines when `check_clipboards` copies `last_text`: management, synchronisation and both trackings on, a text returned by either check, `last_text` set, and the two returned texts different |
| Selection.CheckBoth | src/main.c:263-282 | defines `check_clipboards`: CHECK on PRIMARY and on CLIPBOARD, then a SET of `last_text` on both when the synchronisation condition holds |
| Selection.AddAll | src/main.c:246-247 | defines the history after each handed-on text is added with flags 0, in order |
| Selection.ShouldTextBeSaved | src/main.c:91-110 | the text is kept exactly when it is present and, with `ignore_whiteonly`, holds a non-space byte |
| Selection.WorthExactly | src/main.c:91-110 | without `ignore_whiteonly` every present text is worth saving; with it, exactly those holding a non-space byte |
| Selection.CheckedTextSpec | src/main.c:213-219 | a checked text is the longest valid UTF-8 prefix of what the buffer offers; it is rejected when no non-empty prefix is valid; valid text passes whole |
| Selection.UntouchedBuffers | src/main.c:173-177 | an untracked buffer changes nothing, writes nothing, pushes nothing and returns NULL |
| Selection.CheckDeferral | src/main.c:194-211 | a disabled manager cancels the deferred check; PRIMARY with button 1 or shift held schedules it; a PRIMARY read cancels it; CLIPBOARD leaves it alone |
| Selection.CheckSameText | src/main.c:227-231 | a text equal to the saved one changes nothing |
| Selection.CheckNewText | src/main.c:213-242 | a new valid text worth saving becomes the saved text and `last_text` and is not written back; a rejected text changes nothing |
| Selection.CheckRestore | src/main.c:221-225 | an empty buffer is refilled with the saved text exactly when `restore_empty` is on, the buffer offers no target and a text is saved |
| Selection.SetAndReset | src/main.c:181-191 | SET writes and saves the text exactly when it differs from the saved one; RESET writes "" and forgets the saved text |
| Selection.OtherBufferKept | src/main.c:114-139 | an update of one buffer leaves the other buffer's saved text alone |
| Selection.UpdateKeepsLastIsSaved | src/main.c:114-139 | `last_text` is always one of the two saved texts or NULL, and every update keeps this |
| Selection.CheckBothKeepsLastIsSaved | src/main.c:263-282 | `check_clipboards` keeps the same invariant |
| Selection.HistoryHeadIsLast | src/main.c:246-247 | after an update of a tracked buffer, `last_text` (if any) was handed to the history and is now at its front; with no `last_text` the history is unchanged |
| Selection.SynchronizedBuffers | src/main.c:263-282 | when synchronisation applies, both buffers end up holding `last_text`; otherwise the outcome is just the two checks |
| Selection.ClipboardManager.constructor | src/main.c:49-51 | a fresh manager has no saved texts, no `last_text`, no deferred check and no writes |
| Selection.ClipboardManager.ScheduleDeferredUpdate | src/main.c:294-298 | arms the deferred check and changes nothing else |
| Selection.ClipboardManager.DisableDeferredUpdate | src/main.c:300-307 | disarms the deferred check and changes nothing else |
| Selection.ClipboardManager.SaveAndSetClipboardText | src/main.c:114-139 | the buffer's saved text and `last_text` become the text; the text (or "") is written only when `really_set` is on |
| Selection.ClipboardManager.CheckBuffer | src/main.c:192-243 | the CHECK case changes the state and the writes as `Act` says |
| Selection.ClipboardManager.Perform | src/main.c:179-244 | the switch on the action changes the state and the writes as `Act` says |
| Selection.ClipboardManager.UpdateClipboard | src/main.c:163-250 | the state becomes `Update`'s; the writes are appended; the pushed `last_text` goes into the history store; the buffer's saved text is returned for a tracked buffer, NULL otherwise |
| Selection.ClipboardManager.UpdateClipboards | src/main.c:254-259 | PRIMARY then CLIPBOARD, as `UpdateBoth` says, with the history store recording every pushed text |
| Selection.ClipboardManager.CheckClipboards | src/main.c:263-282 | both checks then the conditional SET, as `CheckBoth` says, with the history store recording every pushed text |
| Preferences.Stop | src/preferences.c:191 | the lookup loop runs over the entries with a description and stops at the first without one |
| Preferences.Find | src/preferences.c:191-197 | defines the loop of `get_pref` from an index: the first entry without a description stops it at `dummy[0]`; an entry whose name equals the argument is returned; a NULL name never matches |
| Preferences.Lookup | src/preferences.c:188-198 | defines `get_pref`: the loop from the first entry |
| Preferences.FindSpec | src/preferences.c:188-198 | from a start index, the scan finds the first entry with the name before the stop, and `dummy` exactly when there is none |
| Preferences.LookupSpec | src/preferences.c:188-198 | `get_pref` returns the first described entry with the name, or `dummy[0]` exactly when no such entry exists |
| Preferences.GetInt | src/preferences.c:274-280 | defines `get_pref_int32`: the value of the slot `get_pref` finds |
| Preferences.SetInt | src/preferences.c:262-267 | defines the table after `p->val = val`: the slot `get_pref` finds takes the value |
| Preferences.GetString | src/preferences.c:297-303 | defines `get_pref_string`: the string of the slot `get_pref` finds |
| Preferences.SetString | src/preferences.c:284-292 | defines the table after `set_pref_string`: the slot `get_pref` finds takes a copy of the string |
| Preferences.PutKeepsSlots | src/preferences.c:262-293 | writing a value never changes where any name is found |
| Preferences.IntRoundTrip | src/preferences.c:262-280 | reading an int just set gives it back, also through any name sharing the slot (such as `dummy`); other slots and all strings are unchanged |
| Preferences.StringRoundTrip | src/preferences.c:284-303 | reading a string just set gives it back, also through any name sharing the slot; other slots and all ints are unchanged |
| Preferences.MapFrom | src/preferences.c:209-212 | defines the update loop of `pref_mapper` from a link on: it stops at the first link with a NULL name or target, and each link before that writes its preference's value into its int |
| Preferences.MapInts | src/preferences.c:202-214 | defines the update mode of `pref_mapper`: the loop from the first link |
| Preferences.MapIntsSpec | src/preferences.c:202-214 | an update writes each mapped name's current value into its int and leaves every other int alone |
| Preferences.MapIntsTwice | src/preferences.c:202-214 | an update's result depends only on the table, not on the ints it overwrites |
| Preferences.Sanitize | src/preferences.c:382-384 | defines one test of `check_sanity`: a value that is 0, above the bound or negative is set to the default |
| Preferences.Sanity | src/preferences.c:379-392 | defines the three tests in order: `history_limit` against 1000 (default 25), `item_length` against 200 (default 50), `ellipsize` against 3 (default 2) |
| Preferences.SanitizeSpec | src/preferences.c:379-392 | a value that is 0, negative or above the bound is replaced by the default; an in-range value leaves the table unchanged; nothing else changes |
| Preferences.SanityRanges | src/preferences.c:379-392 | after the checks, `history_limit` is in 1..1000, `item_length` in 1..200 and `ellipsize` in 1..3, each set to its default exactly when it was out of range |
| Preferences.SetKeyFrom | src/preferences.c:337-345 | defines the loop of `set_key_entry` from an index: the terminator stops it unchanged; the first entry with the name takes the value, or "" for NULL |
| Preferences.SetKey | src/preferences.c:334-346 | defines `set_key_entry`: the loop from the first entry |
| Preferences.SetKeySpec | src/preferences.c:334-346 | setting a listed hotkey changes that one entry to the value, or to "" for NULL |
| Preferences.SetKeyMiss | src/preferences.c:334-346 | a name not in the list changes nothing |
| Preferences.Loaded | src/preferences.c:353-358 | defines the keys the first loop of `set_keys_from_prefs` copies: each hotkey's preference string, "" for NULL |
| Preferences.WithValsSet | src/preferences.c:350-358 | each step of the load loop sets one more hotkey from its preference |
| Preferences.Deduped | src/preferences.c:359-373 | defines the keys at each point of the duplicate check: a key is cleared once a pass for an earlier equal non-empty key has reached it |
| Preferences.DedupSpec | src/preferences.c:359-373 | each hotkey is kept or blanked; the first holder of a combination keeps it; every later holder of a non-empty one loses it; afterwards no two non-empty hotkeys are equal; a list with no duplicates is unchanged |
| Preferences.Blanked | src/preferences.c:365-369 | defines the table at each point of the duplicate check: every slot a cleared hotkey's name reaches holds "" |
| Preferences.BlankedSpec | src/preferences.c:365-369 | the preference strings blanked are exactly those of the hotkeys cleared; ints and slots are unchanged |
| Preferences.DedupStep | src/preferences.c:363-371 | one comparison of the inner loop clears the later duplicate in both the key list and the preferences |
| Preferences.DefaultPrefs | src/preferences.c:100-175 | defines `myprefs[]` as initialised: names, descriptions and defaults in table order, with `no_icon` undescribed and a terminator |
| Preferences.DefaultKeys | src/preferences.c:93-97 | defines `keylist[]` as initialised: `menu_key`, `history_key` and the terminator |
| Preferences.DefaultStop | src/preferences.c:100-175 | the default table's lookup stops after its 21 described entries |
| Preferences.DefaultNoIcon | src/preferences.c:172 | `no_icon` has no description, so `get_pref("no_icon")` reaches `dummy[0]` |
| Preferences.DefaultTables | src/preferences.c:93-175 | in the default table `history_limit`, `item_length`, `ellipsize`, `menu_key` and `history_key` are found at their own slots and `no_icon` is not |
| Preferences.DefaultSanity | src/preferences.c:379-392 | with the default table layout, the checks bring all three values into range |
| Preferences.PrefTable.constructor | src/preferences.c:232-248 | `dummy[0]` holds "dummy String" and no mapper is installed |
| Preferences.PrefTable.GetPref | src/preferences.c:188-198 | the loop returns the slot `Lookup` specifies |
| Preferences.PrefTable.PrefMapper | src/preferences.c:202-214 | PM_INIT installs the map; any other mode writes the mirrored ints as `MapInts` says |
| Preferences.PrefTable.SetPrefInt32 | src/preferences.c:262-270 | sets the value in the slot the name finds, returns 0 and refreshes the mirrored ints |
| Preferences.PrefTable.GetPrefInt32 | src/preferences.c:274-280 | returns the value of the slot the name finds |
| Preferences.PrefTable.SetPrefString | src/preferences.c:284-293 | sets the string of the slot the name finds and returns 0 |
| Preferences.PrefTable.GetPrefString | src/preferences.c:297-303 | returns the string of the slot the name finds |
| Preferences.PrefTable.SetKeyEntry | src/preferences.c:334-346 | the key list becomes `SetKey` of the old one |
| Preferences.PrefTable.LoadKeys | src/preferences.c:353-358 | every hotkey takes its preference string ("" for NULL) |
| Preferences.PrefTable.ClearDuplicatesOf | src/preferences.c:361-371 | the inner loop for one hotkey clears every later duplicate in the key list and in the preferences |
| Preferences.PrefTable.ClearIfDuplicate | src/preferences.c:364-369 | one inner comparison: key l is cleared, in `keylist[]` and in its preference string, exactly when l differs from i and holds another non-empty copy of key i, so the tables move from `Deduped(v, i, l)` to `Deduped(v, i, l + 1)` |
| Preferences.PrefTable.SetKeysFromPrefs | src/preferences.c:350-375 | the key list becomes the loaded values with duplicates cleared, and the same hotkeys are blanked in the preferences |
| Preferences.PrefTable.SanitizeValue | src/preferences.c:382-384 | one range check: resets the value to its default exactly when it is out of range, and refreshes the ints then |
| Preferences.PrefTable.CheckSanity | src/preferences.c:379-395 | the three checks and then `set_keys_from_prefs`, as the specification functions say |
| Labels.Skip | src/history-menu.c.h:493 | defines `g_utf8_skip`: the character length glib assumes from a first octet, 1 to 6 |
| Labels.Strlen | src/history-menu.c.h:493 | defines `g_utf8_strlen(s, len)`: the number of characters that end within the string |
| Labels.Offset | src/history-menu.c.h:498-520 | defines `g_utf8_offset_to_pointer(s, k) - s`: the octet offset after k characters |
| Labels.CharsFlatten | src/history-menu.c.h:493 | the characters glib steps over put back together give the string |
| Labels.OffsetPrefix | src/history-menu.c.h:498-520 | the bytes before `g_utf8_offset_to_pointer(s, k)` are the first k characters |
| Labels.OffsetSuffix | src/history-menu.c.h:505-512 | the bytes from `g_utf8_offset_to_pointer(s, k)` on are the characters from k on |
| Labels.ValidIsWhole | src/history-menu.c.h:493 | on valid UTF-8, glib's character steps tile the string |
| Labels.Glyph | src/history-menu.c.h:395-406 | tab, newline and space become 3-octet UTF-8 glyphs (E2 ..) with no special octet |
| Labels.Visible | src/history-menu.c.h:393-415 | defines the intended conversion: every tab, newline and space replaced by its glyph, every other octet kept |
| Labels.VisibleLength | src/history-menu.c.h:393-415 | the intended conversion grows the text by 2 octets per tab, newline or space |
| Labels.VisibleHasNoSpecial | src/history-menu.c.h:393-415 | after the intended conversion no tab, newline or space is left |
| Labels.VisiblePlain | src/history-menu.c.h:393-415 | a text with none of the three is unchanged |
| Labels.Written | src/history-menu.c.h:400-412 | defines the conversion as written: after each replacement the octet right after the replaced one is copied without being examined |
| Labels.WrittenWhenSpaced | src/history-menu.c.h:407-412 | the conversion as written agrees with the intended one when no two specials are adjacent |
| Labels.WrittenMissesSecondTab | src/history-menu.c.h:407-412 | as written, "\t\t" becomes an arrow and a raw tab, where every tab should be an arrow |
| Labels.FindNext | src/history-menu.c.h:400 | `g_utf8_find_next_char` moves forward over continuation octets only, or reaches the end |
| Labels.PutGlyph | src/history-menu.c.h:409-410 | overwriting the octet and inserting the glyph's tail replaces one octet by the glyph |
| Labels.ConvertNonprintingAsWritten | src/history-menu.c.h:393-415 | the loop as written computes `Written(s)` |
| Labels.ConvertNonprinting | src/history-menu.c.h:393-415 | the corrected loop computes `Visible(s)` |
| Labels.Ellipsize | src/history-menu.c.h:493-525 | defines the ellipsizing step: a text within `item_length` characters is kept without tooltip; a longer one gets the tooltip (the corrected `Labels.Tooltip`; the code as written is `Labels.TooltipAsWritten`) and, by mode, "..." and its last characters, its first and last halves around "...", or its first characters and "..."; any other mode keeps the text |
| Labels.Tooltip | src/history-menu.c.h:497-502 | defines the corrected tooltip of a long text: its first `4 * item_length` characters, or the whole text when it is not longer than that |
| Labels.EllipsizeShort | src/history-menu.c.h:496 | a text within `item_length` characters is kept and gets no tooltip |
| Labels.EllipsizeStart | src/history-menu.c.h:504-508 | START mode shows "..." and the last `item_length` characters |
| Labels.EllipsizeMiddle | src/history-menu.c.h:509-518 | MIDDLE mode shows the first and last `item_length / 2` characters around "..." |
| Labels.EllipsizeEnd | src/history-menu.c.h:519-523 | END mode shows the first `item_length` characters and "..." |
| Labels.EllipsizeTooltip | src/history-menu.c.h:496-503 | any other mode keeps the text; the tooltip of a long text is its first `4 * item_length` characters, or the whole text when it is shorter than that |
| Labels.EllipsizePrintable | src/history-menu.c.h:496-525 | ellipsizing brings in no tab, newline or space |
| Labels.TooltipAsWritten | src/history-menu.c.h:497-502 | defines the tooltip as written: the first `len - 4 * item_length` characters of a text longer than `4 * item_length`, or the whole text |
| Labels.TooltipAsWrittenSpec | src/history-menu.c.h:497-499 | as written, the tooltip keeps the first `len - 4 * item_length` characters |
| Labels.TooltipAsWrittenTooShort | src/history-menu.c.h:497-499 | for "abcdef" with `item_length` 1 the tooltip as written is "ab", where "abcd" is meant |
| Labels.NoNewlines | src/history-menu.c.h:526-539 | defines the label after the line-break removal: every newline octet taken out, the other octets kept in order |
| Labels.NoNewlinesAppend | src/history-menu.c.h:527-539 | line-break removal distributes over concatenation |
| Labels.NoNewlinesSpec | src/history-menu.c.h:527-539 | the result holds no newline and is shorter by the number of newlines |
| Labels.NoNewlinesKeeps | src/history-menu.c.h:527-539 | a text without newlines is unchanged |
| Labels.NoNewlinesIdempotent | src/history-menu.c.h:527-539 | removing line breaks twice is removing them once |
| Labels.NoNewlinesDrop | src/history-menu.c.h:530-536 | erasing a run of newlines does not change the result |
| Labels.StripNewlines | src/history-menu.c.h:527-539 | the erase loop computes `NoNewlines(s)` |
| HistoryMenu.StyleOf | src/history-menu.c.h:560-576 | defines the mark of a text: bold when it equals the CLIPBOARD text (tested first), italic when it equals the PRIMARY text, plain otherwise |
| HistoryMenu.Label | src/history-menu.c.h:489-539 | defines a label: the text, with every tab, newline and space shown as its glyph when `display_nonprinting_characters` is on (the corrected `Labels.Visible`; the code as written is `Labels.Written`), ellipsized with the corrected `Labels.Tooltip` (the code as written is `Labels.TooltipAsWritten`), then without newlines |
| HistoryMenu.ItemOf | src/history-menu.c.h:488-576 | defines the item of an entry: its label and tooltip, its style, its position in the history and the folded text the search compares |
| HistoryMenu.Items | src/history-menu.c.h:577-583 | defines one group: the items of the entries with that pinned state, in history order |
| HistoryMenu.Menu | src/history-menu.c.h:477-611 | defines the children of the menu: the unpinned group, a separator, the pinned group; for an empty history the insensitive "Empty" item and the separator |
| HistoryMenu.Marked | src/history-menu.c.h:438-576 | defines `h.wi.index` after the build: -1, overwritten by the position of every bold or italic entry |
| HistoryMenu.ItemsSnoc | src/history-menu.c.h:577-583 | each history entry adds its item to the list of its own pinned state only |
| HistoryMenu.BuildMenu | src/history-menu.c.h:477-611 | the loop yields the specified menu and marked index, with labels and tooltips built from the corrected `Labels.Visible` and `Labels.Tooltip` (the code as written is `Labels.Written` and `Labels.TooltipAsWritten`) |
| HistoryMenu.MakeItem | src/history-menu.c.h:488-554 | one iteration builds the item `ItemOf` specifies: label, tooltip, style, index, folded text, through the corrected `Labels.ConvertNonprinting` and `Labels.Tooltip` (the code as written is `Labels.ConvertNonprintingAsWritten` and `Labels.TooltipAsWritten`) |
| HistoryMenu.MarkedSnoc | src/history-menu.c.h:561-576 | a styled entry becomes the marked index |
| HistoryMenu.ItemsCount | src/history-menu.c.h:577-583 | each group has one item per history entry of its pinned state |
| HistoryMenu.ItemsSpec | src/history-menu.c.h:479-592 | every item of a group is built from an entry of that group's pinned state, at its index |
| HistoryMenu.ItemsOrdered | src/history-menu.c.h:577-604 | items within a group are in increasing history order |
| HistoryMenu.ItemsComplete | src/history-menu.c.h:577-583 | every entry of a group's pinned state has its item in the group |
| HistoryMenu.MenuLayout | src/history-menu.c.h:602-611 | a non-empty history gives one item per entry plus one separator, and the separator sits right after the unpinned items |
| HistoryMenu.MarkedSpec | src/history-menu.c.h:561-576 | the marked index is the last entry that equals the CLIPBOARD or PRIMARY text, or -1 exactly when none does |
| HistoryMenu.LabelClean | src/history-menu.c.h:488-539 | a label holds no newline; with non-printing display on it holds no tab, newline or space |
| HistoryMenu.Matches | src/history-menu.c.h:205-206 | defines the search test: the folded search string is empty or occurs in the item's folded text |
| HistoryMenu.MatchesNarrow | src/history-menu.c.h:205-206 | for folded needles: a text containing the needle `a + b` contains `a`; folding is a parameter, so nothing is stated about the folding of a longer typed string |
| HistoryMenu.MatchesTrivial | src/history-menu.c.h:205-206 | the empty search string matches every item, and every text matches itself |
| HistoryMenu.FirstShown | src/history-menu.c.h:211-215 | defines the first matched child: the first history item, from an index on, that the search keeps |
| HistoryMenu.FirstShownSpec | src/history-menu.c.h:211-215 | the first matched item is the first visible item, and there is none when nothing matches |
| HistoryMenu.FirstItem | src/history-menu.c.h:625 | the child `gtk_menu_shell_select_first(menu, TRUE)` selects: the first history item, with no earlier one, or none when the menu holds no history item |
| HistoryMenu.FindPrev | src/history-menu.c.h:243 | `g_utf8_find_prev_char` finds the last non-continuation octet before the position, or nothing when all before it are continuations |
| HistoryMenu.BackspaceCut | src/history-menu.c.h:240-248 | one octet or none is cut to empty; otherwise the cut is one octet before the end or at a lead octet followed only by continuations |
| HistoryMenu.LastChar | src/history-menu.c.h:240-248 | a non-empty valid string is a valid string and one last character |
| HistoryMenu.BackspaceDropsOneChar | src/history-menu.c.h:240-248 | on valid UTF-8, BackSpace removes exactly the last character and leaves valid text |
| HistoryMenu.MenuView.constructor | src/history-menu.c.h:436-625 | a new menu shows every child, with an empty search string and nothing matched, and the first history item is selected (none for an empty history) |
| HistoryMenu.MenuView.ApplySearch | src/history-menu.c.h:193-226 | the needle becomes the folded search string; a text item is visible exactly when it matches, other items keep their visibility; the first matched item is the first visible text item and becomes the selection |
| HistoryMenu.MenuView.Commit | src/history-menu.c.h:230-254 | committed text is appended, a NULL commit cuts one character; then the search is applied |
| HistoryMenu.MenuView.Key | src/history-menu.c.h:258-284 | a key event is handled exactly when type-search is on and the input method took it or it is a BackSpace press; Ctrl+BackSpace empties the search, BackSpace cuts one character; anything unhandled changes nothing |

## Left out

- The windowing system and GTK: `gtk_clipboard_*`, `gdk_window_get_pointer`, menu widgets, labels, markup and tooltips. The answers of the windowing system are parameters (`Selection.Os`, `HistoryMenu.Env`). Selection writes are recorded as `Selection.Write` events. The menu is a sequence of `HistoryMenu.MenuItem`.
- The timers: `g_timeout_add` / `g_source_remove` and `check_clipboards_tic`. The deferred check is only the flag recording whether a timer is armed.
- `hist_lock` and all concurrency: each operation is one atomic step.
- File I/O: the history file is a byte string (`None` when it cannot be opened), the path is not modelled, and the preferences key file (`read_preferences` / `save_preferences`) is not part of this model. A failed write is not modelled.
- Byte order: the file stores native integers; the model fixes them to little-endian. The 16 reserved bytes are written as zeros and ignored on reading.
- HistoryFile.Header: the struct's last 8 bytes are written as the text's first 8 bytes, zero-padded (`HistoryFile.TextHead`). The C code writes the struct as it sits in memory, so for a loaded entry whose text is shorter than 8 bytes those bytes hold what the read left there. The reader never looks at them.
- Malloc failure in `new_clip_item` (it returns NULL and the text is dropped) is not modelled.
- HistoryFile.ReadRecord: a record whose size is below 36 ends decoding. The C code would underflow its unsigned subtraction there and overrun its buffer. A length field more than 12 bytes past the text drops the record. There the C code's `text[len] = 0` writes past its allocation, which is undefined.
- HistoryFile.DecodedStorable: stated for files under 4 GiB, read from offset 32 on. In a larger file a length field kept up to 12 bytes past its text may not fit the 32-bit size field of the next save.
- HistoryFile.LoadSaveLoad: stated for files under 4 GiB, for the same reason.
- Image entries: `CLIP_TYPE_IMG` entries are carried as data only. Only text entries take part in duplicate detection.
- The preference dialog, its widgets, `apply_preferences` and keybinder (un)binding are not part of this model. Nor are `main-menu.c.h` and the marking and right-click handlers of the history menu.
- The NULL checks on `get_pref`'s result (`src/preferences.c:255`, `:265`, `:277`, `:287`, `:300`) can never fire, because `get_pref` never returns NULL. The model has no such branch.
- `g_utf8_casefold` is the parameter `fold` of `HistoryMenu.Env` and of `HistoryMenu.MenuView`: Unicode case folding is not modelled.
- `gtk_im_context_filter_keypress` is the boolean `filtered` of `HistoryMenu.MenuView.Key`. The text it commits arrives by a separate `HistoryMenu.MenuView.Commit` call.
- HistoryMenu.MenuView.constructor: the C code keeps the search state in a static structure, so the folded search string and the first match keep stale values from the last menu. They are read only from `apply_search_string`, which folds the string again and clears the first match before reading them, so starting each menu from the empty search loses no behaviour.
- HistoryMenu.Label: requires `4 * item_length` to fit in an int32 (`ValidConfig`). The C multiplication would wrap beyond that. `check_sanity` keeps `item_length` in 1..200.
- Labels.EllipsizeStart, Labels.EllipsizeMiddle, Labels.EllipsizeEnd, Labels.EllipsizeTooltip: they state the character-level result for text that glib steps over as whole characters (`Whole`, implied by valid UTF-8, `Labels.ValidIsWhole`). For malformed octets they state nothing.
- Labels.Ellipsize: it is a function over the byte string, not a sequence of in-place `GString` edits.
- `g_fprintf` diagnostics are dropped.

## Findings

| source | as written | input that shows it | evidently intended | confidence | as-written member | corrected member |
|---|---|---|---|---|---|---|
| src/history-menu.c.h:407-412 | after replacing an octet, `p` is set to the octet after the inserted glyph, and the loop step then skips past it, so the character right after a tab, newline or space is never examined | the text tab, tab becomes E2 86 92 09: the second tab stays raw | every tab, newline and space becomes its glyph | not executed | Labels.ConvertNonprintingAsWritten | Labels.ConvertNonprinting |
| src/history-menu.c.h:497-499 | the tooltip of a long text keeps its first `len - 4 * item_length` characters | "abcdef" with `item_length` 1 gives the tooltip "ab" | the tooltip shows the first `4 * item_length` characters ("abcd") | not executed | Labels.TooltipAsWritten | Labels.Tooltip |

`Labels.WrittenMissesSecondTab` and `Labels.TooltipAsWrittenTooShort` prove the two inputs above. The rest of the model (`Labels.Ellipsize`, `HistoryMenu.Label`, `HistoryMenu.MakeItem`) uses the corrected definitions.
