# RCVersion, modelled in Dafny

RCVersion is a command-line tool that rewrites the version numbers in a Windows resource
script (`.rc`). It finds the block that declares `VERSIONINFO`. Inside that block it finds the
fixed-info entries `FILEVERSION` and `PRODUCTVERSION` and the `VALUE "FileVersion"` and
`VALUE "ProductVersion"` strings. Each one is parsed as four numbers
`major, minor, build, revision`. Major, minor and revision keep their values or take an
override from the command line. The build is incremented or overridden. The result is written
back in place as `major, minor, build, revision`.

The project models four parts of the program:

- **The cursor helpers of `trim.h`**, and the same helpers inside `RCUpdater.h`. These are
  `LTrim`, `LSkipTo`, `NextLine`, `SkipString`, `SkipWord` and `SkipTextItem` (module `Trim`).
- **The template updater `RCUpdater`**, in three modules:
  - `VersionRewriter`: reading numbers (`str2int`), `parse`, `format`, the override rule and
    `replace`.
  - `VersionLocator`: finding the version block and the version fields (`FindStartOfVersion`,
    `FindVersionStrings`, the keyword table).
  - `VersionUpdate`: the whole `UpdateVersion`, which rewrites the fields from last to first and
    reports all or nothing.
- **The older narrow-character updater `RCFileUpdater`**, in two modules:
  - `ItemFinder`: `MatchSkip` and `FindVersionItem`.
  - `FileUpdater`: `UpdateVersionNumber`, `Replace`, `Update` and `UpdateVersions`, on a class
    holding the buffer and the overrides.
- **The command line `RCVersionOptions`** (module `Options`). This is the constructor's
  defaults, `NumericOption` with the exact `wcstoul` conversion and its 32-bit reading,
  `PathOption`, `Parse` and `Validate`.

A script is a `seq<char>`, and a position in it is a `nat`. `CString.At` reads the terminator
at and past the end, so every scan stops at the first NUL, as the C pointer walks do. Buffers
that the program changes in place are `array<char>`. Each method that changes a buffer states
that buffer's new contents as a specification function of the old contents. The properties are
then proved about those functions. The move of the tail and the copy of the new text are shared
by both updaters (module `Buffer`). The two replace functions differ only in when they refuse
a replacement (`FileUpdater.ReplacesAgree`). The updaters also differ in the override rule
(`FileUpdater.OverridePoliciesCompared`), in how they find the fields, and in the guard after
the older one finds an item.

The environment is passed in as parameters:

- environment expansion (`ExpandEnvironmentStrings`) is a function `string -> Option<string>`;
- file access (`GetFileAttributes`) is a predicate `string -> bool`;
- the keyword table is a parameter of `FindVersionStrings` and `UpdateVersion`, and
  `VersionLocator.KeywordTable` holds the table of `GetKeywordTable`.

Printed messages are modelled as a list of `Options.Report` values, oldest first.

## Model

| member | source | states |
|---|---|---|
| `Trim.LTrim` | RCVersion/trim.h:18-62 | the loop stops at the first position at or after the cursor whose character is not in the chaff set, or at the terminator (`LTrimPos`) |
| `Trim.LTrimSpace` | RCVersion/trim.h:4-16 | the loop stops at the first character that `isspace` rejects (space, tab, line feed, vertical tab, form feed, carriage return), or at the terminator |
| `Trim.WhiteSpaceIsSpace` | RCVersion/trim.h:6 | the chaff set used for `LTrim(text)` holds exactly the characters `isspace` accepts in the C locale |
| `Trim.LTrimSkipsChaff` | RCVersion/RCUpdater.h:77-92 | `RCUpdater::LTrim` passes only chaff characters, and it stops on a non-chaff character or on the terminator |
| `Trim.LTrimIdempotent` | RCVersion/RCUpdater.h:77-92 | trimming a trimmed position leaves it where it is |
| `Trim.LTrimEmptyChaff` | RCVersion/trim.h:20-31 | with an empty chaff set the cursor does not move |
| `Trim.LTrimFrom` | RCVersion/trim.h:20-31 | trimming from any position inside the chaff run lands on the same position as trimming from its start |
| `Trim.LSkipTo` | RCVersion/RCUpdater.h:95-107 | the loop stops at the first character that is in the stop set, or at the terminator |
| `Trim.LSkipToStops` | RCVersion/RCUpdater.h:95-107 | every character passed is outside the stop set, and the stop is a member of the set or the terminator |
| `Trim.NextLine` | RCVersion/trim.h:108-113 | the loop stops just past the first line feed, or on the terminator |
| `Trim.NextLineAfterLineFeed` | RCVersion/RCUpdater.h:109-114 | the next line starts right after a line feed with none before it, or is the terminator when the rest has no line feed |
| `Trim.NextLineEnds` | RCVersion/RCUpdater.h:111-113 | a line ends at a line feed or at the terminator |
| `Trim.SkipString` | RCVersion/trim.h:65-87 | the loop computes `SkipStringPos`: unchanged off a quote, otherwise past the closing quote, or to the terminator |
| `Trim.SkipStringCases` | RCVersion/trim.h:77-87 | off a quote nothing moves; on a quote the cursor passes a run without quotes and lands past the closing quote, or on the terminator when the string is unterminated |
| `Trim.SkipWord` | RCVersion/trim.h:89-101 | the loop stops at the first white-space character or at the terminator |
| `Trim.SkipWordStops` | RCVersion/trim.h:96-101 | every character passed is not white space, and the stop is white space or the terminator |
| `Trim.SkipTextItem` | RCVersion/trim.h:103-106 | a quoted string is skipped as a string; anything else is skipped as a word |
| `VersionRewriter.ReadNumber` | RCVersion/RCUpdater.h:126-134 | `str2int` succeeds exactly when the cursor is on a digit, and then moves the cursor past at least that digit, staying inside the string |
| `VersionRewriter.Str2Int` | RCVersion/RCUpdater.h:116-134 | the whole digit run read most significant digit first, then the chaff skipped when the chaff set is not empty; nothing off a digit |
| `VersionRewriter.ReadsDigits` | RCVersion/RCUpdater.h:126-134 | a digit run followed by a non-digit reads as its decimal value, leading zeros included |
| `VersionRewriter.ReadsDecimal` | RCVersion/RCUpdater.h:126-134 | the decimal text of a number, followed by a non-digit, reads back as that number |
| `VersionRewriter.ReadFields` | RCVersion/RCUpdater.h:152-159 | a successful run of reads yields one value per field and ends past the cursor, inside the string |
| `VersionRewriter.ParseVersion` | RCVersion/RCUpdater.h:146-162 | a successful `parse` leaves `tail` past the start, inside the string |
| `VersionRewriter.Parse` | RCVersion/RCUpdater.h:146-162 | the unrolled reads agree with `ParseVersion`: leading space and tab, three numbers each followed by separators, then the revision with nothing skipped |
| `VersionRewriter.ParsedFields` | RCVersion/RCUpdater.h:150-161 | a parse that succeeds is the four reads from the first character that is not space or tab |
| `VersionRewriter.ParseShape` | RCVersion/RCUpdater.h:146-162 | a parse passes only over space or tab, then digits and separators, and ends on a digit; it never crosses a line feed |
| `VersionRewriter.ParseLocal` | RCVersion/RCUpdater.h:146-162 | two texts that agree from the cursor through a line feed parse alike, and a parse stops before that line feed |
| `VersionRewriter.Format` | RCVersion/RCUpdater.h:136-144 | `format` succeeds exactly when the text with its terminator fits in the given number of characters, and then it is `"%d, %d, %d, %d"` of the version |
| `VersionRewriter.FormatText` | RCVersion/RCUpdater.h:136-144 | definition of the `"%d, %d, %d, %d"` text of a version; `FormatTextShape` and `ParseFormatted` state its shape and its round trip |
| `VersionRewriter.FormatTextShape` | RCVersion/RCUpdater.h:141-144 | a formatted version is a C string that starts and ends with a digit and holds no line feed |
| `VersionRewriter.FormatFits` | RCVersion/RCUpdater.h:339-341 | every version whose parts fit a 32-bit `int` formats into the 256-character scratch text, in at most 46 characters |
| `VersionRewriter.ParseFormatted` | RCVersion/RCUpdater.h:136-162 | round trip: parsing a formatted version, followed by a non-digit, gives back that version, with `tail` just past the text |
| `VersionRewriter.Overridden` | RCVersion/RCUpdater.h:334-337 | a negative override keeps the parsed major, minor and revision, and gives the parsed build plus one; any other override replaces the part |
| `VersionRewriter.OverriddenAllGiven` | RCVersion/RCUpdater.h:334-337 | with all four overrides given, the result no longer depends on the parsed version |
| `VersionRewriter.Replaced` | RCVersion/RCUpdater.h:164-181 | `replace` fails exactly when the text grows and the old tail plus the new text do not fit in `totalChars` |
| `VersionRewriter.ReplacedString` | RCVersion/RCUpdater.h:164-181 | after a successful replace, the string at the base is the new text followed by the old tail, the length changes by the difference, and nothing before the base changes |
| `VersionRewriter.ReplacedInText` | RCVersion/RCUpdater.h:172-178 | after a successful replace inside the script, the buffer keeps its size, the script still ends inside `totalChars`, and the prefix is kept |
| `VersionRewriter.ReplaceNotGrowing` | RCVersion/RCUpdater.h:174-179 | a replacement that does not lengthen the text never fails |
| `VersionRewriter.Replace` | RCVersion/RCUpdater.h:164-181 | the method returns whether `Replaced` succeeds, and leaves the array as `Replaced` describes, or unchanged on failure |
| `Buffer.SplicedString` | RCVersion/RCUpdater.h:172-178 | after the move of the tail and the copy, the string at the base reads as the new text followed by the old tail |
| `Buffer.SplicedText` | RCVersion/RCUpdater.h:164-181 | the whole script after a splice is the old prefix, then the new text, then the old text after the replaced characters |
| `Buffer.MoveChars` | RCVersion/RCUpdater.h:176 | an overlapping move (`traitsT::move`, `MoveMemory`) copies `n` old characters to the destination, whichever way the ranges overlap, and changes nothing else |
| `Buffer.CopyChars` | RCVersion/RCUpdater.h:178 | the copy writes the text at the destination and changes nothing else |
| `Buffer.MovedThenCopied` | RCVersion/RCUpdater.h:172-178 | moving the tail with its terminator and then copying the new text is the splice |
| `Buffer.CopiedOver` | RCVersion/RCUpdater.h:178 | when the lengths are equal, no move is needed: the copy alone is the splice |
| `Buffer.Splice` | RCVersion/RCFileUpdater.cpp:417-425 | the tail is moved when it changes place, and the text is copied when it is not empty; the array ends as the splice |
| `Buffer.MoveTail` | RCVersion/RCFileUpdater.cpp:418-419 | the tail and its terminator end up at their new place, and a move onto itself changes nothing |
| `Buffer.Length` | RCVersion/RCUpdater.h:166 | `traitsT::length` counts the characters before the terminator |
| `Buffer.Spliced` | RCVersion/RCUpdater.h:172-178 | definition of the buffer after a splice: same size, prefix kept, new text at the base, the old tail with its terminator moved behind it; `SplicedString` and `SplicedText` state what it reads as |
| `VersionLocator.KeywordTableWellFormed` | RCVersion/RCUpdater.h:9-54 | every entry of the keyword table has a one-character code and no terminator inside it |
| `VersionLocator.KeywordPos` | RCVersion/RCUpdater.h:192-195 | the cursor the loop tests lies at or past the line start, inside the string: past space and tab, on to the next space or tab (which may be on a later line), and past space and tab |
| `VersionLocator.StartOfVersion` | RCVersion/RCUpdater.h:182-208 | the result is 0, or an offset past the line scanned and inside the string |
| `VersionLocator.FindStartOfVersion` | RCVersion/RCUpdater.h:183-208 | the loop returns the offset of the line after the first tested cursor that is on `VERSIONINFO` followed by a character whose low byte is at most a space; otherwise 0 |
| `VersionLocator.TestLine` | RCVersion/RCUpdater.h:193-200 | one pass of the loop: whether the line declares `VERSIONINFO`, and the start of the next line |
| `VersionLocator.NoVersionInfoNoStart` | RCVersion/RCUpdater.h:207 | without `VERSIONINFO` anywhere in the text, the result is 0 |
| `VersionLocator.StartFollowsVersionInfo` | RCVersion/RCUpdater.h:198-204 | a start that is found is the line right after an occurrence of `VERSIONINFO` |
| `VersionLocator.NameScan` | RCVersion/RCUpdater.h:263-284 | after `VALUE`, the name loop always ends the keyword scan; an offset is recorded only where the cursor stops |
| `VersionLocator.KeywordScan` | RCVersion/RCUpdater.h:229-295 | the keyword loop only moves the cursor forward, inside the string; an offset is recorded only on a found keyword, at the cursor |
| `VersionLocator.ScanLine` | RCVersion/RCUpdater.h:217-300 | one pass of the line loop moves forward in the string; a recorded offset lies between the line start and the terminator, and the next pass starts on the line after that offset |
| `VersionLocator.VersionOffsets` | RCVersion/RCUpdater.h:210-302 | definition of the offsets collected from a line on: a comment line adds nothing, a line with a found keyword adds its offset if any, and the first line with no found keyword ends the list |
| `VersionLocator.KeywordScanPasses` | RCVersion/RCUpdater.h:229-242 | entries that are value names, do not match at the cursor, or match followed by a character above a space leave the keyword loop where it was |
| `VersionLocator.NoKeywordNotFound` | RCVersion/RCUpdater.h:229-298 | when no entry claims the line, the keyword loop reports nothing found and records nothing |
| `VersionLocator.CommentLinePassed` | RCVersion/RCUpdater.h:219-225 | a line starting with `#` or `//` after spaces and tabs adds no offset, and the scan goes on with the next line |
| `VersionLocator.KeywordlessLineEnds` | RCVersion/RCUpdater.h:227-298 | a line that is not a comment and that no entry claims ends the scan: nothing on it or after it is recorded |
| `VersionLocator.BlankLineEnds` | RCVersion/RCUpdater.h:219-298 | with the table of `GetKeywordTable`, a line whose first character after spaces and tabs is not a capital letter and starts no comment, a blank line among them, ends the scan |
| `VersionLocator.FixedKeywordOffset` | RCVersion/RCUpdater.h:239-255 | `PRODUCTVERSION` or `FILEVERSION` at the trimmed line start, followed by a character no greater than a space, records the position after the keyword and the spaces and tabs after it |
| `VersionLocator.GluedKeywordEnds` | RCVersion/RCUpdater.h:239-298 | the same keyword followed by a character above a space (`FILEVERSIONX`) is no keyword: the scan ends there with nothing recorded |
| `VersionLocator.ValueKeywordNames` | RCVersion/RCUpdater.h:258-262 | `VALUE` followed by a character no greater than a space runs the value-name loop at the cursor moved on to the next space or tab, possibly on a later line, and past spaces and tabs |
| `VersionLocator.NameScanPasses` | RCVersion/RCUpdater.h:263-269 | entries that are not value names leave the value-name loop where it was |
| `VersionLocator.NameOffset` | RCVersion/RCUpdater.h:270-282 | a value name at the cursor, followed by separators and then a character above a space, records the position after the name, the separators, an optional opening quote and the spaces and tabs after it |
| `VersionLocator.ValueNameOffset` | RCVersion/RCUpdater.h:263-284 | with the table of `GetKeywordTable`, `"FileVersion"` or `"ProductVersion"` at the cursor records that position, which lies past the name and the separators |
| `VersionLocator.VersionOffsetsWithin` | RCVersion/RCUpdater.h:210-302 | every offset recorded lies between the start and the terminator |
| `VersionLocator.VersionOffsetsApart` | RCVersion/RCUpdater.h:210-302 | consecutive offsets lie on different lines, so they are recorded in strictly increasing document order |
| `VersionLocator.ScanNames` | RCVersion/RCUpdater.h:263-283 | the value-name loop agrees with `NameScan` |
| `VersionLocator.ScanKeywords` | RCVersion/RCUpdater.h:229-295 | the keyword loop agrees with `KeywordScan` |
| `VersionLocator.FindVersionStrings` | RCVersion/RCUpdater.h:210-302 | the line loop collects exactly `VersionOffsets` from the start |
| `VersionLocator.ScanOneLine` | RCVersion/RCUpdater.h:219-300 | one pass of the line loop agrees with `ScanLine` |
| `VersionUpdate.FieldEdit` | RCVersion/RCUpdater.h:326-341 | an edit exists only where `parse` succeeds; it replaces the text up to `tail` with a C string, and the string stays inside |
| `VersionUpdate.FieldEditWithin` | RCVersion/RCUpdater.h:326-341 | the edit of a field stays within the string at that field |
| `VersionUpdate.AfterEditFits` | RCVersion/RCUpdater.h:348-357 | the string still ends inside `chars` after an edit, the buffer keeps its size, and nothing before the field changes |
| `VersionUpdate.RewriteAtFits` | RCVersion/RCUpdater.h:323-359 | one pass of the offset loop, whether it succeeds or fails, keeps the string inside `chars` and the text before the field |
| `VersionUpdate.RewriteAll` | RCVersion/RCUpdater.h:319-360 | the loop over the offsets, from last to first, keeps the buffer size |
| `VersionUpdate.RewriteAllStep` | RCVersion/RCUpdater.h:321-360 | the loop handles the last offset first, then the earlier ones on the buffer it leaves; a failure clears the success flag but the loop goes on |
| `VersionUpdate.RewriteAllCount` | RCVersion/RCUpdater.h:319-362 | at most one replacement per offset is counted, and one for every offset when none failed |
| `VersionUpdate.RewriteAllKeepsPrefix` | RCVersion/RCUpdater.h:321-360 | nothing before the first offset changes |
| `VersionUpdate.ParsesOriginal` | RCVersion/RCUpdater.h:321 | working in reverse order is sound: once the later fields are rewritten, each field still parses as it did in the original buffer |
| `VersionUpdate.FieldsEditable` | RCVersion/RCUpdater.h:307-314 | the fields found in a buffer whose string fits lie on separate lines, in increasing order, and can be rewritten by the offset loop |
| `VersionUpdate.NoVersionInfoNoUpdate` | RCVersion/RCUpdater.h:307-311 | without `VERSIONINFO` anywhere, the buffer is left alone and the result is 0 |
| `VersionUpdate.AllOrNothing` | RCVersion/RCUpdater.h:362 | the result is 0 or the number of version fields found |
| `VersionUpdate.UpdateKeepsPrefix` | RCVersion/RCUpdater.h:305-363 | the buffer keeps its size, and nothing before the first version field changes |
| `VersionUpdate.FieldEditNone` | RCVersion/RCUpdater.h:326-346 | a field that does not parse or format leaves the buffer alone, and the pass fails |
| `VersionUpdate.FieldEditSome` | RCVersion/RCUpdater.h:348 | a field that parses and formats is handed to `replace` with the room left after it and with the characters up to `tail` |
| `VersionUpdate.RewriteAt` | RCVersion/RCUpdater.h:323-359 | definition of one pass of the offset loop: the field's edit, then `replace` with the room left after the field; `RewriteAtFits` and `StrAfterEdit` state what it leaves |
| `VersionUpdate.StrAfterEdit` | RCVersion/RCUpdater.h:348 | after a pass that succeeds, the string is the text before the field, the new version and the text after the old `tail`; nothing before the field changes |
| `VersionUpdate.RewrittenLast` | RCVersion/RCUpdater.h:321-360 | rewriting the last field first and then the earlier ones agrees with the reference worked out from front to back on the original text |
| `VersionUpdate.RewriteAllText` | RCVersion/RCUpdater.h:319-360 | when no pass fails, the offset loop leaves the string the reference `Rewritten` describes |
| `VersionUpdate.UpdatedVersion` | RCVersion/RCUpdater.h:305-363 | definition of a whole run: no block or no offsets leaves the buffer alone with count 0; otherwise the reverse loop's buffer, and its count only when no pass failed |
| `VersionUpdate.UpdatedText` | RCVersion/RCUpdater.h:305-363 | when `UpdateVersion` reports replacements, the buffer's string is the reference: the text before the first field, each field's new version followed by the text from its old `tail` to the next field, and the text after the last `tail` |
| `VersionUpdate.FailedFieldFailsAll` | RCVersion/RCUpdater.h:326-362 | a field that does not parse, or whose new version does not fit the scratch text, makes the run report 0 |
| `VersionUpdate.NotGrowingSucceeds` | RCVersion/RCUpdater.h:164-359 | when no field's new version is longer than its old text, every pass succeeds and each counts one |
| `VersionUpdate.NotGrowingUpdates` | RCVersion/RCUpdater.h:305-363 | when no field grows, the run rewrites and counts every field it finds |
| `VersionUpdate.RoomSucceeds` | RCVersion/RCUpdater.h:164-359 | when every field parses and formats, and the string's length plus the lengths of all the new versions is below the buffer size, every pass succeeds and each counts one, growing fields included |
| `VersionUpdate.RoomUpdates` | RCVersion/RCUpdater.h:305-363 | under the same room condition, the run rewrites and counts every field it finds |
| `VersionUpdate.RoomAfterLast` | RCVersion/RCUpdater.h:319-359 | the first pass (on the last field) succeeds, and the room left still covers the new versions of the other fields, which still parse and format alike |
| `VersionUpdate.TwoFieldsSucceed` | RCVersion/RCUpdater.h:319-362 | two fields at the starts of the first two lines that do not grow are both rewritten, with count 2 |
| `VersionUpdate.TwoFieldsText` | RCVersion/RCUpdater.h:319-360 | after the two rewrites, the string is the first new version, the rest of the first line, the second new version and the rest of the script |
| `VersionUpdate.FieldBumped` | RCVersion/RCUpdater.h:334-341 | a field holding a formatted version followed by a line feed parses as that version, and with every override at -1 its new text is that version with the build incremented |
| `VersionUpdate.TwoFieldsBumped` | RCVersion/RCUpdater.h:325-359 | with every override at -1, two such fields are rewritten, and the first reads back as the old version with only its build incremented |
| `VersionUpdate.UpdateVersion` | RCVersion/RCUpdater.h:305-363 | the method leaves the buffer and returns the count as `UpdatedVersion` describes: find the block, collect the offsets, rewrite from last to first, and return all or nothing |
| `VersionUpdate.RewriteFields` | RCVersion/RCUpdater.h:319-362 | the reverse loop ends with the buffer of `RewriteAll`, and returns its count only when no pass failed |
| `VersionUpdate.RewriteField` | RCVersion/RCUpdater.h:323-359 | one pass parses, applies the overrides, formats and replaces; it reports whether the pass succeeded |
| `VersionUpdate.ReplaceField` | RCVersion/RCUpdater.h:348-359 | the `replace` call of a pass, for an edit already worked out |
| `ItemFinder.MatchSkipped` | RCVersion/RCFileUpdater.cpp:231-259 | the cursor always passes leading space and tab and stays inside the string; a failed match leaves it there |
| `ItemFinder.MatchSkip` | RCVersion/RCFileUpdater.cpp:231-259 | the method returns the match flag and the cursor of `MatchSkipped` |
| `ItemFinder.MatchSkipNull` | RCVersion/RCFileUpdater.cpp:235-237 | a null text always matches, with the cursor past space and tab |
| `ItemFinder.MatchSkipEmpty` | RCVersion/RCFileUpdater.cpp:239-245 | an empty text matches anything, and passes one text item and the space or tab after it |
| `ItemFinder.MatchSkipNonEmpty` | RCVersion/RCFileUpdater.cpp:247-258 | a non-empty text matches exactly when it occurs at the trimmed cursor, ignoring case, followed by white space (or by a comma when commas are allowed); the cursor then passes the separators |
| `ItemFinder.MatchSkipIgnoresCase` | RCVersion/RCFileUpdater.cpp:248 | two texts that agree after `tolower` match alike |
| `ItemFinder.LineAttempt` | RCVersion/RCFileUpdater.cpp:272-288 | one pass on a line: a found position or the cursor to go on from, both behind the trimmed line start and inside the string |
| `ItemFinder.NextLineAdvances` | RCVersion/RCFileUpdater.cpp:270 | the loop always moves to a later line, so it ends |
| `ItemFinder.FoundItem` | RCVersion/RCFileUpdater.cpp:265-292 | a found item lies between the start and the terminator |
| `ItemFinder.FoundItemStep` | RCVersion/RCFileUpdater.cpp:270-289 | a pass that finds the item returns it; a pass that misses goes on at the next line |
| `ItemFinder.FindVersionItem` | RCVersion/RCFileUpdater.cpp:265-292 | the line loop returns exactly `FoundItem` |
| `ItemFinder.TryLine` | RCVersion/RCFileUpdater.cpp:272-288 | one pass of the loop agrees with `LineAttempt` |
| `ItemFinder.FoundOnALine` | RCVersion/RCFileUpdater.cpp:270-289 | a found item was found on a line that the loop reached, with both name and value matched there |
| `ItemFinder.MissingNameNotFound` | RCVersion/RCFileUpdater.cpp:280-291 | a non-empty name that occurs nowhere, in any case, is never found (null result) |
| `FileUpdater.ReadComponents` | RCVersion/RCFileUpdater.cpp:345-373 | a successful run of reads yields one value per number and ends inside the string |
| `FileUpdater.ReadVersionNumber` | RCVersion/RCFileUpdater.cpp:340-376 | the four numbers end past the version start, inside the string; `NumberRewrite` then extends the replaced old text over the spaces and tabs after the revision digits (line 376) |
| `FileUpdater.ComponentsAreFields` | RCVersion/RCFileUpdater.cpp:349-351 | the `front == tail` test never rejects anything: after a digit run the cursor is never on a digit |
| `FileUpdater.ReadVersionNumberIsParse` | RCVersion/RCFileUpdater.cpp:340-376 | the four reads of `UpdateVersionNumber` accept the same texts as `RCUpdater::parse` and stop at the same `tail` |
| `FileUpdater.ReadVersionText` | RCVersion/RCFileUpdater.cpp:340-376 | the unrolled reads, each with its digit and separator tests, agree with `ReadVersionNumber` |
| `FileUpdater.FileOverriddenRule` | RCVersion/RCFileUpdater.cpp:338-379 | the build is incremented only when no override is given at all; a negative override otherwise keeps the parsed part |
| `FileUpdater.FileOverridden` | RCVersion/RCFileUpdater.cpp:338-379 | definition of the older override rule; `FileOverriddenRule` and `OverridePoliciesCompared` state what it does |
| `FileUpdater.OverridePoliciesCompared` | RCVersion/RCFileUpdater.cpp:338-379 | the two updaters agree when no override or a build override is given; with other overrides and a negative build, the older one keeps the build and the newer one increments it |
| `FileUpdater.NewVersionTextShape` | RCVersion/RCFileUpdater.cpp:381-382 | the new version is a C string shorter than the 64-character scratch text, and it is the whole formatted text whenever that fits |
| `FileUpdater.NewVersionTextFits` | RCVersion/RCFileUpdater.cpp:381-382 | parts that fit a 32-bit `int` are never cut |
| `FileUpdater.NewVersionText` | RCVersion/RCFileUpdater.cpp:381-382 | definition of the new text: the `"%d, %d, %d, %d"` text cut to 63 characters; `NewVersionTextShape` and `NewVersionTextFits` state its bounds |
| `FileUpdater.FileReplacedString` | RCVersion/RCFileUpdater.cpp:399-426 | after a successful `Replace`, the string at the old text is the new text followed by the old tail, and the prefix is kept |
| `FileUpdater.FileReplacedFails` | RCVersion/RCFileUpdater.cpp:402-415 | the method fails exactly when the old string, or the new text with the tail, does not fit in `bufferLength`; a null new text counts as empty |
| `FileUpdater.FileReplaced` | RCVersion/RCFileUpdater.cpp:399-426 | definition of `Replace`'s outcome; `FileReplacedString`, `FileReplacedFails` and `ReplacesAgree` state what it leaves and when it fails |
| `FileUpdater.ReplacesAgree` | RCVersion/RCFileUpdater.cpp:399-426 | on the arguments `RCUpdater::replace` accepts, the two replacements leave the same buffer |
| `FileUpdater.Replace` | RCVersion/RCFileUpdater.cpp:399-426 | the method returns whether `FileReplaced` succeeds, and leaves the buffer as that function describes, or unchanged |
| `FileUpdater.NumberRewriteWithin` | RCVersion/RCFileUpdater.cpp:340-385 | the old version text ends inside the string after the version, and the new one is a C string |
| `FileUpdater.NumberRewrite` | RCVersion/RCFileUpdater.cpp:338-385 | definition of the reads, the override rule and the new text of `UpdateVersionNumber`; `NumberRewriteWithin` and `ReadVersionNumberIsParse` state its bounds and that it accepts what `parse` accepts |
| `FileUpdater.UpdatedNumber` | RCVersion/RCFileUpdater.cpp:336-394 | definition of the buffer `UpdateVersionNumber` leaves, or none when it returns 0; `UpdatedNumberText` and `UpdatedNumberNeedsVersion` state it |
| `FileUpdater.UpdatedNumberText` | RCVersion/RCFileUpdater.cpp:336-394 | a rewritten version is the new text followed by what came after the old text; the buffer keeps its size and its prefix |
| `FileUpdater.ReplacedByText` | RCVersion/RCFileUpdater.cpp:390-393 | a successful `Replace` of the old version text leaves the new text followed by the old tail |
| `FileUpdater.UpdatedNumberNeedsVersion` | RCVersion/RCFileUpdater.cpp:340-374 | a rewrite is worked out exactly where `parse` reads a version; nothing changes anywhere else |
| `FileUpdater.NothingAtEnd` | RCVersion/RCFileUpdater.cpp:342-343 | at the terminator, nothing reads as a version |
| `FileUpdater.ReadRewrite` | RCVersion/RCFileUpdater.cpp:338-385 | the reads and the formatting before the write agree with `NumberRewrite` |
| `FileUpdater.UpdateVersionNumber` | RCVersion/RCFileUpdater.cpp:336-394 | with the copy into `oldVersion` cut to 63 characters, the method returns 1 and leaves `UpdatedNumber` when the version reads and the replacement fits; otherwise it returns 0 and the buffer is unchanged. As written the program instead ends when the old text is 64 characters or more (see Findings) |
| `FileUpdater.UpdatedNumberAsWritten` | RCVersion/RCFileUpdater.cpp:336-394 | definition of `UpdateVersionNumber` as written: it aborts when a version reads and its old text does not fit `char oldVersion[64]` with its terminator, and otherwise ends as `UpdatedNumber`; `AsWrittenAbortsOnLongText` states it |
| `FileUpdater.AsWrittenAbortsOnLongText` | RCVersion/RCFileUpdater.cpp:376-385 | the update as written aborts exactly when a version reads and its old text, through the spaces and tabs after the revision, is 64 characters or more; otherwise it returns 1 or 0 exactly as the corrected update does |
| `FileUpdater.PaddedVersionRewrite` | RCVersion/RCFileUpdater.cpp:340-376 | a version followed by spaces and a line feed is read with the old text ending at the line feed |
| `FileUpdater.RewriteOfParse` | RCVersion/RCFileUpdater.cpp:338-382 | wherever `parse` reads a version, the new text is the `"%d, %d, %d, %d"` text of the older override rule |
| `FileUpdater.LongOldVersionAborts` | RCVersion/RCFileUpdater.cpp:384-385 | a version padded with spaces to 64 characters or more before its line feed makes the update as written abort |
| `FileUpdater.LongOldVersionRewritten` | RCVersion/RCFileUpdater.cpp:384-393 | with the copy cut to fit, the same padded version at the end of the string is replaced by the new text followed by the line feed |
| `FileUpdater.LongVersionLineExample` | RCVersion/RCFileUpdater.cpp:336-394 | on `1, 2, 3, 4`, 54 spaces and a line feed, with no override, the update as written aborts and the corrected one leaves `1, 2, 4, 4` and the line feed |
| `FileUpdater.ReplaceNumber` | RCVersion/RCFileUpdater.cpp:390-393 | the `Replace` call of `UpdateVersionNumber`, once the rewrite is known |
| `FileUpdater.ItemGuard` | RCVersion/RCFileUpdater.cpp:324-325 | the corrected guard never dereferences null; it goes on exactly when the item was found and is not at the terminator |
| `FileUpdater.ItemGuardAsWritten` | RCVersion/RCFileUpdater.cpp:323-325 | definition of the guard as written, which reads through the pointer exactly when it is null; `AsWrittenDereferencesNull` states it |
| `FileUpdater.ItemUpdatedAsWritten` | RCVersion/RCFileUpdater.cpp:319-331 | definition of `Update` as written, undefined where the guard dereferences null; `CorrectedGuardAgrees` compares it with the corrected one |
| `FileUpdater.AsWrittenDereferencesNull` | RCVersion/RCFileUpdater.cpp:323-325 | when the name occurs nowhere, the guard as written dereferences null, while the corrected `Update` returns 0 and changes nothing |
| `FileUpdater.AsWrittenExample` | RCVersion/RCFileUpdater.cpp:302-308 | on the script `1 VERSIONINFO`, `BEGIN`, `END`, `UpdateVersions` finds the version block and passes its guard, and its first `Update` (for `FILEVERSION`) dereferences null |
| `FileUpdater.CorrectedGuardAgrees` | RCVersion/RCFileUpdater.cpp:319-331 | wherever the guard as written does not dereference null, the corrected `Update` gives the same result |
| `FileUpdater.UpdatedAtShape` | RCVersion/RCFileUpdater.cpp:327-330 | the count is 0 or 1, a count of 0 changes nothing, and the buffer keeps its size and everything before the text |
| `FileUpdater.UpdatedAt` | RCVersion/RCFileUpdater.cpp:327-330 | definition of the part of `Update` after the guard; `UpdatedAtShape` states its count and what it keeps |
| `FileUpdater.ItemUpdated` | RCVersion/RCFileUpdater.cpp:319-331 | definition of the corrected `Update`; `ItemUpdatedShape` states that it rewrites at most one item and keeps the size and prefix |
| `FileUpdater.ItemUpdatedShape` | RCVersion/RCFileUpdater.cpp:319-331 | an update rewrites at most one item, keeps the buffer size and changes nothing before the text |
| `FileUpdater.VersionItemsArgs` | RCVersion/RCFileUpdater.cpp:308-311 | the four items are `FILEVERSION`, `PRODUCTVERSION`, `VALUE "FileVersion"` and `VALUE "ProductVersion"`, each a valid C string argument |
| `FileUpdater.VersionItems` | RCVersion/RCFileUpdater.cpp:308-311 | the four items exist, with what `Update` demands of each |
| `FileUpdater.VersionItemStart` | RCVersion/RCFileUpdater.cpp:302-304 | the updates start only past a `VERSIONINFO` item that is not at the terminator |
| `FileUpdater.ItemsUpdated` | RCVersion/RCFileUpdater.cpp:306-313 | the updates keep the buffer size and the prefix, and count at most one per item |
| `FileUpdater.VersionsUpdatedCount` | RCVersion/RCFileUpdater.cpp:297-314 | the result is -1 exactly for an empty buffer, 0 with no change when there is no version block, and otherwise between 0 and 4 with the text before the block kept |
| `FileUpdater.VersionsUpdated` | RCVersion/RCFileUpdater.cpp:297-314 | definition of `UpdateVersions` on a buffer; its contract keeps the buffer size, and `VersionsUpdatedCount` states its result |
| `FileUpdater.RCFileUpdater.constructor` | RCVersion/RCFileUpdater.cpp:8-21 | no buffer, sizes 0, all four overrides 0, not verbose |
| `FileUpdater.RCFileUpdater.Update` | RCVersion/RCFileUpdater.cpp:319-331 | with the guard corrected, the buffer and the count become those of `ItemUpdated` |
| `FileUpdater.RCFileUpdater.UpdateAt` | RCVersion/RCFileUpdater.cpp:327-330 | the part of `Update` after the guard agrees with `UpdatedAt` |
| `FileUpdater.RCFileUpdater.UpdateVersions` | RCVersion/RCFileUpdater.cpp:297-314 | returns -1 with no buffer; otherwise the buffer and the count become those of `VersionsUpdated` |
| `FileUpdater.RCFileUpdater.UpdateItems` | RCVersion/RCFileUpdater.cpp:306-313 | the four `Update` calls leave the buffer and the sum that `ItemsUpdated` describes |
| `FileUpdater.RCFileUpdater.UpdateItem` | RCVersion/RCFileUpdater.cpp:308-311 | one `Update` call followed by the updates after it is the same as the updates from that item on |
| `Options.WcsToUl` | RCVersion/RCVersionOptions.cpp:71-72 | the `wcstoul` value is at most `ULONG_MAX`, and `tail` stays inside the string |
| `Options.ToInt` | RCVersion/RCVersionOptions.cpp:72 | `int(result)` is the 32-bit value congruent to the unsigned one |
| `Options.NumericOfDigits` | RCVersion/RCVersionOptions.cpp:69-79 | a run of digits below 2^31 is its decimal value |
| `Options.DigitsConverted` | RCVersion/RCVersionOptions.cpp:72 | a run of digits is converted as a whole, and saturates at `ULONG_MAX` |
| `Options.NumericRoundTrip` | RCVersion/RCVersionOptions.cpp:69-79 | round trip: the `%d` text of any non-negative `int` reads back as that number |
| `Options.NumericAfterSpace` | RCVersion/RCVersionOptions.cpp:72 | leading white space is skipped |
| `Options.NumericRejectsTrailing` | RCVersion/RCVersionOptions.cpp:74-78 | any character other than the terminator after the digits makes the value invalid |
| `Options.NumericWithoutDigits` | RCVersion/RCVersionOptions.cpp:72-78 | a value that starts with no digit, sign or space is invalid; the empty value reads as 0 |
| `Options.NumericNegative` | RCVersion/RCVersionOptions.cpp:72-75 | a minus sign negates through the unsigned wrap-around, so `-1` gives -1 without a report |
| `Options.NumericValue` | RCVersion/RCVersionOptions.cpp:69-79 | definition of `NumericOption`'s value: `wcstoul` read as an `int`, or none when characters follow the number; the `Numeric` lemmas state what it gives |
| `Options.NumericWraps` | RCVersion/RCVersionOptions.cpp:72-75 | values from 2^31 to `ULONG_MAX` wrap to negative numbers |
| `Options.NumericSaturates` | RCVersion/RCVersionOptions.cpp:72-75 | values beyond `ULONG_MAX` saturate, and so read as -1 without a report |
| `Options.PathOption` | RCVersion/RCVersionOptions.cpp:85-95 | an empty value gives an empty path; a failed expansion gives the value itself |
| `Options.Reported` | RCVersion/RCVersionOptions.cpp:47-52 | `Error` sets the flag and appends the message |
| `Options.WithNumericField` | RCVersion/RCVersionOptions.cpp:127-142 | `m`, `n`, `b` and `r` each set their own version number |
| `Options.Arguments` | RCVersion/RCVersionOptions.cpp:105 | the loop looks at every argument except the program name |
| `Options.ArgReport` | RCVersion/RCVersionOptions.cpp:109-160 | an argument prints at most one message |
| `Options.ArgReports` | RCVersion/RCVersionOptions.cpp:107-160 | an argument prints exactly the message `ArgReport` names: an option without a letter and colon, an unknown letter, an invalid number, or a second plain argument; the flag is set exactly when it was set before or a message was printed |
| `Options.ArgApplied` | RCVersion/RCVersionOptions.cpp:107-160 | definition of one argument's effect, the option switch included; `ArgReports`, `ArgKeepsNumeric` and the `Reported` lemmas state it |
| `Options.ArgsApplied` | RCVersion/RCVersionOptions.cpp:105-161 | definition of the arguments applied left to right; `ArgsReports` and the `Last…Wins` lemmas state it |
| `Options.ArgsReports` | RCVersion/RCVersionOptions.cpp:105-161 | over all arguments, earlier messages are kept, and the flag ends set exactly when it was set before or some argument printed a message |
| `Options.ArgKeepsNumeric` | RCVersion/RCVersionOptions.cpp:125-152 | an argument that does not set a version number leaves it alone |
| `Options.LastNumericWins` | RCVersion/RCVersionOptions.cpp:125-142 | each version number ends as the last non-empty value given for it, as `NumericOption` reads it, or as it was |
| `Options.LastVerboseWins` | RCVersion/RCVersionOptions.cpp:146-147 | verbosity ends as the last `v` option sets it (an empty value turns it off), or as it was |
| `Options.LastOutputWins` | RCVersion/RCVersionOptions.cpp:143-144 | the output path ends as the last `o` option sets it (an empty value clears it), or as it was |
| `Options.InputKept` | RCVersion/RCVersionOptions.cpp:154-160 | once the input file is set, no argument changes it |
| `Options.FirstInputWins` | RCVersion/RCVersionOptions.cpp:105-161 | with no input file yet, the input file ends as the path of the first non-empty argument that is not an option, when that path is not empty |
| `Options.OptionsKeepInput` | RCVersion/RCVersionOptions.cpp:109-152 | empty arguments and options never change the input file |
| `Options.ArgsAppliedSplit` | RCVersion/RCVersionOptions.cpp:105-161 | applying two runs of arguments one after the other is applying them joined |
| `Options.EmptyArgIgnored` | RCVersion/RCVersionOptions.cpp:109-110 | an empty argument changes nothing |
| `Options.InputRepeatedReported` | RCVersion/RCVersionOptions.cpp:158-159 | with the input file set, a further plain argument is reported and changes nothing else |
| `Options.UnknownReported` | RCVersion/RCVersionOptions.cpp:149-151 | an option letter other than the six known ones is reported and changes nothing else |
| `Options.FormatReported` | RCVersion/RCVersionOptions.cpp:115-123 | an option without a letter followed by a colon is reported and changes nothing else |
| `Options.OptionSpellings` | RCVersion/RCVersionOptions.cpp:112-114 | `/` and `-` introduce the same options, and the letter may be in either case |
| `Options.EmptyNumericIgnored` | RCVersion/RCVersionOptions.cpp:127-141 | an empty value for `m`, `n`, `b` or `r` changes nothing |
| `Options.ValidatedOutcome` | RCVersion/RCVersionOptions.cpp:170-184 | at most one message is added; the result is clear exactly when it was clear before and an accessible input file is set, and then both paths are set; the output defaults to the input |
| `Options.Validated` | RCVersion/RCVersionOptions.cpp:170-184 | definition of `Validate`'s effect; `ValidatedOutcome` states it |
| `Options.RCVersionOptions.constructor` | RCVersion/RCVersionOptions.cpp:32-41 | no error, all four numbers -1, verbose, no paths and no messages |
| `Options.RCVersionOptions.Error` | RCVersion/RCVersionOptions.cpp:47-63 | the fields become `Reported` of the old ones |
| `Options.RCVersionOptions.NumericOption` | RCVersion/RCVersionOptions.cpp:69-79 | the method returns `NumericResult` (-1 for an invalid value) and reports exactly the invalid values |
| `Options.RCVersionOptions.Parse` | RCVersion/RCVersionOptions.cpp:101-164 | the flag is cleared, then the arguments after the program name are applied left to right; the result is true exactly when no message was printed |
| `Options.RCVersionOptions.ParseArgument` | RCVersion/RCVersionOptions.cpp:107-160 | one pass of the loop agrees with `ArgApplied` |
| `Options.RCVersionOptions.Validate` | RCVersion/RCVersionOptions.cpp:170-184 | the fields become `Validated` of the old ones, and the result is the cleared flag |

## Left out

- Loading, saving and releasing files are not part of this model. This covers `RCFileUpdater::Load`, `Save`, `Allocate`, `Release` and `UpdateFile` (RCVersion/RCFileUpdater.cpp:57-225), the handler around `RCUpdater`, and file encodings.
  - `UpdateVersions` is modelled on a buffer and a count of loaded characters.
  - Because `Load` sets `bufferChars` to 0, the real `UpdateFile` always reaches the -1 branch.
- Logging, `wprintf` tracing, `Message` and the text of every message are left out. Messages are modelled as `Options.Report` values.
- `Options.RCVersionOptions.Error`: the 1024-character truncation of a formatted message (`_snwprintf_s`) is not modelled, because message texts are not modelled.
- `RCFileUpdater`'s `errorCode` and `isUnicode` fields are left out; no modelled operation reads them.
- `ExpandEnvironmentStrings` and `GetFileAttributes` are parameters. `Options.PathOption` states the empty and failing cases; a successful expansion is whatever the parameter returns, and the 1024-character limit on it is not modelled.
- `Options.RCVersionOptions.Parse`: arguments are whole strings. A null `argv` entry is modelled as an empty string, which the loop skips in the same way. An embedded NUL is not treated as the end of the argument.
- `VersionRewriter.Str2Int`: numbers are unbounded, so `strtol`/`wcstol` saturation at 2^31-1 is not modelled.
- `VersionRewriter.Overridden`: the build is unbounded, so the overflow of `build + 1` at 2^31-1 is not modelled.
- `FileUpdater.ReadVersionText`: the `strtol`/`strtoul` values are not truncated to `int`.
- `FileUpdater.UpdateVersionNumber`: it does not model the program ending when the old version text is 64 characters or more, because the copy into `oldVersion` is modelled as cut to fit; `FileUpdater.UpdatedNumberAsWritten` models that ending, and the Findings table lists it.
- `Options.FirstInputWins`: it needs the first plain argument's path to be non-empty, because a path the expansion turns into the empty string leaves the input file unset and the next plain argument then names it.
- `FileUpdater.NewVersionTextShape`: it states the 64-character cut of `_snprintf_s` for numbers of any size. Only with unbounded numbers can the cut actually happen.
- `VersionRewriter.Format`: `format` fails only when the text does not fit. Negative parts are not produced, because the parsed numbers are unsigned digit runs.
- The narrow and wide instantiations of `RCUpdater` share one model over code points. The signed narrow `char` of bytes 0x80 and above is not modelled.
  - `unsigned char(line[length]) <= ' '` in `FindStartOfVersion` is modelled as the low byte of the character.
- `isspace`/`iswspace` are modelled as the C-locale white-space set, and `towlower`/`tolower`/`_strnicmp` as ASCII case folding.
- The keyword table is a parameter of `FindVersionStrings` and `UpdateVersion`, because the two `GetKeywordTable` instantiations hold the same entries.
- Several loop bodies are split out into helper methods so that each proof stays small:
  - `VersionLocator.TestLine`, `VersionLocator.ScanOneLine`;
  - `VersionUpdate.RewriteField`, `VersionUpdate.ReplaceField`;
  - `ItemFinder.TryLine`;
  - `FileUpdater.RCFileUpdater.UpdateAt`, `UpdateItems`, `UpdateItem`;
  - `FileUpdater.ReadRewrite`, `FileUpdater.ReplaceNumber`;
  - `Buffer.MoveTail`, `Buffer.Splice`;
  - `Options.RCVersionOptions.ParseArgument`.

  The program itself runs each body inline.
- `FindVersionStrings` passes over `#` lines just as it passes over `//` lines, and goes on with the next line (RCVersion/RCUpdater.h:221-225). The model follows the code.
- The main program, argument dispatch and the `RCFileHandler` class are not part of this model.
- `VersionLocator.KeywordScan`: the contract bounds the cursor only by the terminator, not by the end of the line. After `VALUE` the cursor moves on to the next space or tab (RCVersion/RCUpdater.h:260), which can be on a later line, so `VALUE` followed by a line feed finds the name on the next line. `ValueKeywordNames` and `ValueNameOffset` state where it lands.
- `VersionLocator.ScanLine`: for the same reason a recorded offset, and the start of the next pass, are bounded only by the terminator and may lie on a later line than the one scanned.

## Findings

| source | as written | input that shows it | evidently intended | confidence | as-written member | corrected member |
|---|---|---|---|---|---|---|
| RCVersion/RCFileUpdater.cpp:324 | `if (!version && !*version) return 0;` dereferences `version` exactly when `FindVersionItem` returned null, and lets a result at the terminator through | the script `1 VERSIONINFO` / `BEGIN` / `END` (three lines): `UpdateVersions` finds the block, and its first `Update` finds no `FILEVERSION` and reads through a null pointer | give up when the item is missing or at the terminator: `!version` or `!*version` | not executed | `FileUpdater.AsWrittenExample` | `FileUpdater.ItemGuard` |
| RCVersion/RCFileUpdater.cpp:385 | `strncpy_s(oldVersion, version, tail - version)` copies into `char oldVersion[64]` without `_TRUNCATE`, so an old text of 64 characters or more (the spaces and tabs after the revision count) calls the invalid-parameter handler, which ends the program, although the copy only feeds a message | the line `1, 2, 3, 4` followed by 54 spaces and a line feed, at the end of the buffer | pass `_TRUNCATE` as the count, as the copy at line 154 does, so the message shows a cut old text and the update goes on | not executed | `FileUpdater.LongVersionLineExample` | `FileUpdater.LongOldVersionRewritten` |
