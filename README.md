# direct_mail_subscription: the front-end record lifecycle

This project models the record-lifecycle engine of the TYPO3 front-end
plugin `Plugin` (`Classes/Plugin.php`). The plugin lets visitors create,
edit and delete records of a database table such as `tt_address` or
`fe_users`. One request runs `init()`, which:

1. reads the request parameters `cmd`, `preview`, `backURL`, `rU`, `aC`,
   `FE[table]`, `doNotSave` and `sFK`;
2. deletes the record named by `rU` on a delete command;
3. for submitted data, runs the parse directives (`parseValues`), the
   override values, and the validation commands (`evalValues`);
4. saves the record when nothing failed and no preview or `doNotSave` was
   asked for;
5. picks the screen to show. The `setfixed` command instead applies an
   option block from the TypoScript `setfixed.` configuration, authorised
   by a hash code carried in an e-mailed link.

The model is in Dafny:

- **PhpStrings, PhpValues**: the PHP library behaviour the plugin relies on.
  This covers `trim`, `explode`/`implode`, `trimExplode`,
  `array_intersect`, `intval`, `rawurlencode`, `htmlspecialchars`,
  truthiness, and ordered PHP arrays as lists of pairs.
- **Store**: the record table, read and written through `getRawRecord`,
  `getRecordsByField`, `DBgetUpdate`, `DBgetInsert` and `DBgetDelete`.
- **Transforms, Checkbox**: the `parseValues` directives and the checkbox
  bitmask.
- **Validation**: the `evalValues` checks and the captcha entry.
- **Tokens**: `authCode`, `aCAuth`, `setfixedHash`, the `_FIELDLIST` merge
  and the setfixed links.
- **FormUpdate, Helpers**: the pure helpers: `escapeHTML`,
  `modifyDataArrForFormUpdate`, the `backURL` scrub, `isHTMLContent`, the
  mail subject/body split and `removeRequired`.
- **PluginClass**: the class `Plugin`. Its fields are those the steps
  update. Its methods are the steps of `init()`, each proved against a
  function stating what the step computes.
- **Lifecycle**: what `save()`, `deleteRecord()` and `procesSetFixed()`
  promise about the table.

Calls into code the model cannot see are parameters: `md5`, `date()`, the
`random` digest, `validEmail`, `getTreeList`, `DBmayFEUserEdit`, the login
state and whether the captcha extension is loaded.

A Dafny `string` stands for a PHP string, which is a string of bytes: each
character of the model is one byte. So `strlen` is the length of the
sequence, and `rawurlencode` works byte by byte. `htmlspecialchars` uses
PHP's default UTF-8 charset without `ENT_SUBSTITUTE` or `ENT_IGNORE`, so it
returns "" for a byte string that is not well-formed UTF-8 (the UTF8-char
rule of section 4 of RFC 3629).

Where the plugin's comments and its code differ, the model follows the code:

- `unsetEmpty` goes through `array_flip`. It also removes repeated entries
  from the failure list.
- After `checkCaptcha()` succeeds, the failure list ends in "1". So
  `failure` is never empty once `evalValues.` is configured, and such a
  form never saves.

## Model

| member | source | states |
|---|---|---|
| PluginClass.CmdKey | Classes/Plugin.php:224-231 | the command key is "edit" exactly for the edit command and "create" for every other command |
| PluginClass.AllowList | Classes/Plugin.php:863-864 | a column may be written exactly when fe_admin_fieldList and the command's fields list both name it |
| PluginClass.Assigned | Classes/Plugin.php:603-605 | after the loop, the record's fields are its old fields plus every key of the option array |
| PluginClass.AssignedGet | Classes/Plugin.php:599-607 | every key the option array names gets the option array's value; every other field keeps its value or stays absent |
| PluginClass.ApplyDirectives | Classes/Plugin.php:391-471 | the inner parseValues loop applies one field's directives in order (Transforms.ApplyAll) |
| PluginClass.ParsedData | Classes/Plugin.php:389-472 | the outer parseValues loop runs every configured field's directives in configuration order (Transforms.ParseAll) |
| PluginClass.MergeRecord | Classes/Plugin.php:1201-1204 | the setfixed loop puts every block value into the record and collects the block's keys in order |
| PluginClass.RequiredPass | Classes/Plugin.php:638-643 | the required pass lists exactly the required fields left blank, in order |
| PluginClass.CheckCommands | Classes/Plugin.php:670-761 | one field's evalValues commands run in order (Validation.RunChecks) |
| PluginClass.CheckFields | Classes/Plugin.php:668-763 | every configured field's commands run, then its error marker is set (Validation.RunFields) |
| PluginClass.SaveError | Classes/Plugin.php:855-880 | save() sets error only to the no-permissions subpart, only on an edit that passes the login-or-code gate without the right to edit, and then changes nothing else |
| PluginClass.DeleteError | Classes/Plugin.php:931-954 | deleteRecord() sets error only to the no-permissions subpart, only for a live record that passes the gate without the right to edit, and then changes nothing else |
| PluginClass.FixedAllowList | Classes/Plugin.php:1210-1211 | a setfixed update may write a column exactly when fe_admin_fieldList names it and it is a key of the merged block |
| PluginClass.Plugin.FormValues | Classes/Plugin.php:1319-1377 | the form values are the form-update copy of dataArr under the command's evalValues. and parseValues.; they hold no HTML tag, and FormUpdate.FormKeeps, FormTwice, FormMultiple and FormCheckbox state what each field holds |
| PluginClass.Plugin.ParseValues | Classes/Plugin.php:386-474 | dataArr becomes the parse of the old record under the parseValues. configuration, and is unchanged without one |
| PluginClass.Plugin.AssignValues | Classes/Plugin.php:603-605 | dataArr becomes the old record with the option array assigned over it |
| PluginClass.Plugin.OverrideValues | Classes/Plugin.php:599-607 | the command's overrideValues. are written over dataArr, and nothing changes without them |
| PluginClass.Plugin.DefaultValues | Classes/Plugin.php:615-623 | the command's defaultValues. are written over dataArr, and nothing changes without them |
| PluginClass.Plugin.EvalValues | Classes/Plugin.php:634-769 | failure, dataArr, failureMsg, markerArray and the captcha session are what the evaluation of the old state gives (Validation.Evaluate) |
| PluginClass.Plugin.Save | Classes/Plugin.php:855-921 | table, currentArr, saved and error become what save() gives (SaveEffect) |
| PluginClass.Plugin.DeleteRecord | Classes/Plugin.php:931-954 | table, currentArr, saved and error become what deleteRecord() gives (DeleteEffect) |
| PluginClass.Plugin.ProcesSetFixed | Classes/Plugin.php:1180-1251 | the outcome, table and currentArr are what procesSetFixed() gives (SetfixedEffect) |
| PluginClass.Plugin.ReadRequest | Classes/Plugin.php:148-177 | cmd, preview, rU and doNotSave come from the request and aC is the request's aC cast to a string (the corrected reading, see the third Findings row); the pid is conf pid or else the page id; fieldList is the trimmed fe_admin_fieldList |
| PluginClass.Plugin.ReadBackUrl | Classes/Plugin.php:153-211 | backURL is the scrubbed request parameter, using the corrected scrub Helpers.ScrubBackUrlFixed (see "## Left out"), and its three markers are set from it |
| PluginClass.Plugin.ReadCommand | Classes/Plugin.php:224-242 | cmdKey comes from cmd, requiredArr is the command's required list within its fields list, and dataArr is FE[table] |
| PluginClass.Plugin.SaveStep | Classes/Plugin.php:280-282 | the record is written or errors only when failure is falsy and it is neither a preview nor doNotSave; error only becomes the no-permissions subpart |
| PluginClass.Plugin.Submit | Classes/Plugin.php:263-287 | submitted data is parsed, overridden and evaluated, and written only under the save condition |
| PluginClass.Plugin.DeleteStep | Classes/Plugin.php:260-262 | the table changes only on a delete command without preview or doNotSave |
| PluginClass.Plugin.Process | Classes/Plugin.php:259-294 | the table, saved and error change only through a delete or a save; preview survives only with submitted data and no failure |
| PluginClass.Plugin.Display | Classes/Plugin.php:300-361 | saved gives the SAVED screen of the command; an error gives its subpart; otherwise the (default) command is shown, and setfixed runs procesSetFixed() |
| PluginClass.Plugin.Run | Classes/Plugin.php:244-361 | a missing template, or a table name or field list that is falsy ("" or "0"), stops before anything changes; a saved or error screen follows a delete or a save; a preview requires submitted data without failure |
| PluginClass.Plugin.Init | Classes/Plugin.php:140-361 | init() on a fresh object: the template check and the falsy-table-or-field-list check decide the first two screens exactly and change nothing; setfixed leaves saved and error clear |
| Lifecycle.SaveOutcome | Classes/Plugin.php:855-921 | save() saves exactly when an edit is enabled, passes the gate and may edit, or a create is enabled; otherwise table, currentArr and saved stay |
| Lifecycle.EditTable | Classes/Plugin.php:862-869 | an edit leaves the table or updates the submitted uid over the allowlist, and updates it when it saves |
| Lifecycle.EditWritesOnly | Classes/Plugin.php:862-869 | an edit changes only rows of the submitted uid, and in them only columns the data has and both field lists name, never uid |
| Lifecycle.EditWritesValues | Classes/Plugin.php:869 | an edit of uid 0 leaves the table; an edit of any other uid that saves gives each allowed submitted column other than uid its submitted value |
| Lifecycle.CreateAppends | Classes/Plugin.php:882-917 | a create saves and appends one record: its uid is the next uid whatever the data says, its pid is the storage pid (the data's own pid when the storage pid is negative), each allowed submitted column holds its value, and currentArr is that record whenever the allowlist does not name the delete column |
| Lifecycle.CreateEffect | Classes/Plugin.php:882-917 | an enabled create is the insert, with the new row read back |
| Lifecycle.NewRowReads | Classes/Plugin.php:885 | for any allowlist, the inserted row reads back as its uid, and as the storage pid when that is a valid id |
| Lifecycle.DeleteOutcome | Classes/Plugin.php:931-954 | deleteRecord() deletes exactly when enabled, the record exists and the user passes the gate and may edit; the record is then unreadable, others read as before, currentArr is the old record |
| Lifecycle.SetfixedOutcomes | Classes/Plugin.php:1180-1251 | setfixed is off exactly when not configured, succeeds exactly when aC, cast to a string, equals the expected code (for a missing record the code of the two keys alone), and changes nothing otherwise |
| Lifecycle.SetfixedArrayDeletes | Classes/Plugin.php:1206-1208 | as written, an array aC passes the strcmp() test, so a DELETE link deletes the record of any rU |
| Lifecycle.SetfixedArrayRefused | Classes/Plugin.php:165 | with aC cast to a string, an array fails every setfixed check and changes nothing, when md5() gives hexadecimal digits |
| Lifecycle.SetfixedDeleteHides | Classes/Plugin.php:1207-1208 | a successful DELETE hides the record and keeps every other record |
| Lifecycle.SetfixedTable | Classes/Plugin.php:1209-1214 | any other block leaves the table or updates the uid with the block's values over the setfixed allowlist |
| Lifecycle.SetfixedWritesOnly | Classes/Plugin.php:1209-1214 | a block update changes only the record's rows, and only fe_admin_fieldList columns that are block keys, never _FIELDLIST |
| Lifecycle.RowDataKeys | Classes/Plugin.php:1212-1214 | every field handed to DBgetUpdate is a key of the block |
| Lifecycle.BlockLinkAccepted | Classes/Plugin.php:1728-1746 | a block link made from the stored record carries a code that procesSetFixed() accepts |
| Store.First | Classes/Plugin.php:860-861 | the first row in scan order satisfying the condition, with none before it, or none at all |
| Store.GetRaw | Classes/Plugin.php:860-861 | getRawRecord returns a live row with that uid, none for a uid that is not positive, or none exists |
| Store.FirstMatch | Classes/Plugin.php:677-683 | the first row that getRecordsByField selects, or no row matches |
| Store.WriteFields | Classes/Plugin.php:869 | exactly the allowed columns the data has get the data's string value; all other columns keep theirs |
| Store.Update | Classes/Plugin.php:869 | uid 0 changes nothing; otherwise the uid is dropped from the data, rows of the uid get the allowed columns, and other rows are unchanged |
| Store.UpdateWritesOnly | Classes/Plugin.php:869 | an update changes only allowed submitted columns other than uid, only in the uid's rows, and there to the submitted values |
| Store.NextUid | Classes/Plugin.php:886 | the new uid is above every uid in the table |
| Store.MaxUid | Classes/Plugin.php:886 | the largest uid bounds every row's uid |
| Store.RemoveKeepsOthers | Classes/Plugin.php:945 | a hard delete leaves other uids reading as before |
| Store.MarkKeepsOthers | Classes/Plugin.php:945 | a soft delete leaves other uids reading as before |
| Store.Insert | Classes/Plugin.php:885-886 | the old rows stay in order and exactly one row is appended; the new uid is above every existing uid |
| Store.NewRowColumns | Classes/Plugin.php:885-886 | the new row always holds the new uid, never the data's; it holds the storage pid when that is not negative and otherwise the data's pid (or nothing); each other allowed submitted column holds its string value, and every other column is empty |
| Store.InsertReads | Classes/Plugin.php:907-915 | for any allowlist, the new uid reads back as the inserted row when that row is live, and as nothing when it is not; it is live whenever the allowlist does not name the delete column |
| Store.Delete | Classes/Plugin.php:945 | deleting uid 0 changes nothing, and no delete changes which column marks deleted rows |
| Store.DeleteHides | Classes/Plugin.php:945 | once deleted, the record can no longer be read |
| Store.DeleteKeepsOthers | Classes/Plugin.php:945 | deleting one record leaves every other uid reading as before |
| Store.MarkDeleted | Classes/Plugin.php:945 | setting the delete column to 1 hides the row and keeps its uid |
| Store.RemoveUid | Classes/Plugin.php:945 | a hard delete keeps exactly the rows of other uids |
| Checkbox.ClampKey | Classes/Plugin.php:445 | forceIntegerInRange: negative keys become 0, others stay |
| Checkbox.PackGroup | Classes/Plugin.php:443-453 | the checkArray loop computes the packed bitmask |
| Checkbox.PackBits | Classes/Plugin.php:443-453 | bit a of the mask is set exactly when a checked entry's clamped key is a (at most 30) |
| Checkbox.PackBelow | Classes/Plugin.php:447-449 | the mask fits in 31 bits |
| Checkbox.Unpack | Classes/Plugin.php:1354-1363 | the positions read back from a mask are at most 30 |
| Checkbox.UnpackPack | Classes/Plugin.php:1354-1363 | unpacking the mask gives exactly the checked positions |
| Transforms.ParseRender | Classes/Plugin.php:390-394 | a directive written as TypoScript reads back as the same directive |
| Transforms.FilterClean | Classes/Plugin.php:403-417 | after nospace/alpha/num/alphanum/alphanum_x the value holds only characters of the class |
| Transforms.FilterFixedIff | Classes/Plugin.php:403-417 | a filter leaves a value unchanged exactly when it already holds only characters of the class |
| Transforms.FilterIdempotent | Classes/Plugin.php:403-417 | applying a filter twice is applying it once |
| Transforms.FilterApplyClean | Classes/Plugin.php:403-417 | the filtered field is present and clean |
| Transforms.TrimApplyClean | Classes/Plugin.php:418-420 | after trim the field is a string without leading or trailing whitespace |
| Transforms.ApplyIdempotent | Classes/Plugin.php:396-440 | the normalising directives are idempotent on the record |
| Transforms.TransformIdempotent | Classes/Plugin.php:396-440 | each normalising directive is idempotent on the field's value |
| Transforms.CheckArrayStores | Classes/Plugin.php:441-457 | checkArray stores a 31-bit number whose bits are the checked keys, or 0 for a non-array |
| Transforms.Normalise | Classes/Plugin.php:463-465 | the uniqueHashInt normal form holds only lower-case letters and digits |
| Transforms.UniqueHashRange | Classes/Plugin.php:468 | uniqueHashInt stores a number in 0..2^32-1 |
| Transforms.Apply | Classes/Plugin.php:395-470 | a directive changes only the field it names |
| Transforms.ApplyAll | Classes/Plugin.php:391-471 | a field's directives change only that field |
| Transforms.ParseAllUntouched | Classes/Plugin.php:386-474 | a field with no parseValues entry keeps its value and presence |
| Transforms.NameParses | Classes/Plugin.php:390-394 | a command name without brackets or surrounding whitespace reads back as itself with an empty parameter |
| Transforms.ParseRenderName | Classes/Plugin.php:390-394 | every directive without a parameter reads back from its name |
| Transforms.ParseRenderParam | Classes/Plugin.php:390-394 | random[n] and uniqueHashInt[fields] read back with their parameter |
| Transforms.HexPrefixRange | Classes/Plugin.php:468 | hexdec of an 8-digit digest prefix is below 2^32 |
| Validation.RequiredArr | Classes/Plugin.php:234-237 | a field is required exactly when both the required list and the fields list name it |
| Validation.RequiredFailures | Classes/Plugin.php:638-643 | the required pass lists exactly the required fields whose value trims to empty; it is empty exactly when none is missing |
| Validation.Sprintf1Fills | Classes/Plugin.php:724 | sprintf() puts its argument in place of a label's %s when no % comes before it |
| Validation.FormatFailureIsSprintf | Classes/Plugin.php:1843-1846 | the atLeast/atMost/inBranch message is sprintf() applied to what getFailure() gives for the label with its %s, as at lines 724, 732 and 746 |
| Validation.Withdraw | Classes/Plugin.php:751-758 | the field leaves the failure list, its messages and the data; markers stay |
| Validation.RecordTestPid | Classes/Plugin.php:646-667 | the record under test exists exactly on an edit; a create on pid 0 tests a non-negative pid |
| Validation.CheckCaptcha | Classes/Plugin.php:765-800 | the captcha entry appended is "captcha" when wrong and "1" otherwise; the session string is spent once checked |
| Validation.CheckOnlyAppends | Classes/Plugin.php:670-750 | every command but unsetEmpty at most appends its field and one message, leaving the rest |
| Validation.FailedCheck | Classes/Plugin.php:675-750 | a check that lists its field appends exactly one message to the field's messages, after those it had |
| Validation.ConfiguredText | Classes/Plugin.php:1843-1846 | with evalErrors configured for the field and command, that message is the configured text, its %s filled with the length or the branch list |
| Validation.BuiltInText | Classes/Plugin.php:675-750 | without a configured text, the message is the command's built-in label, with the length or the branch list in place of its %s |
| Validation.TwiceFails | Classes/Plugin.php:699-705 | twice fails exactly when the value differs from field_again |
| Validation.RequiredAndEmailFail | Classes/Plugin.php:706-719 | required fails exactly on a blank value; email exactly on a value validEmail refuses |
| Validation.AtLeastFails | Classes/Plugin.php:720-727 | atLeast[n] fails exactly when the value is shorter than n |
| Validation.AtMostFails | Classes/Plugin.php:728-735 | atMost[n] fails exactly when the value is longer than n |
| Validation.UniqueFailsIff | Classes/Plugin.php:675-698 | uniqueGlobal/uniqueLocal fail exactly when a matching row exists (in the pid for uniqueLocal) and its uid is not loosely equal to the submitted uid, where two PHP 7 numeric strings (leading whitespace, sign, decimal digits with an optional fraction and exponent) compare by value and any other pair as strings |
| Validation.UniqueSelfMatch | Classes/Plugin.php:675-698 | on an edit the record matching itself does not fail, even when the submitted uid is written differently ("05" for 5); without a match nothing fails |
| Validation.InBranchFails | Classes/Plugin.php:736-750 | inBranch fails exactly when the root is set and the value is not in the branch list |
| Validation.UnsetEmptyEffect | Classes/Plugin.php:751-758 | unsetEmpty on an empty value removes the field from the failure list, its messages and the data, and changes nothing else |
| Validation.RunCheckKeeps | Classes/Plugin.php:670-760 | a command keeps every earlier failure unless it unsets its own field, and adds only its own field |
| Validation.RunFieldsKeeps | Classes/Plugin.php:668-763 | the loop keeps a listed field unless one of its entries uses unsetEmpty, and adds only configured fields |
| Validation.RequiredReported | Classes/Plugin.php:634-769 | a missing required field is in the failure string unless unsetEmpty withdraws it |
| Validation.FailureNames | Classes/Plugin.php:634-769 | every failure entry is a required field, a configured field, "captcha" or "1" |
| Validation.FailureNeverEmpty | Classes/Plugin.php:765-767 | with evalValues. configured the failure string is never empty |
| Validation.FailureRequiredOnly | Classes/Plugin.php:638-643 | without evalValues. and with every required field filled, failure is empty |
| Tokens.CodeLength | Classes/Plugin.php:173 | codeLength is the configured value, or 8 when that reads as 0 |
| Tokens.BuildAuthInput | Classes/Plugin.php:1691-1700 | the authCode loop builds the hashed string |
| Tokens.JoinFields | Classes/Plugin.php:1692-1694 | each field value followed by a bar, in order |
| Tokens.AuthCode | Classes/Plugin.php:1686-1705 | empty without authcodeFields; otherwise the md5 prefix of codeLength, never longer |
| Tokens.AuthCodeDefault | Classes/Plugin.php:1686-1705 | with the default length the code has at most 8 characters and prefixes the digest |
| Tokens.ACAuthIssued | Classes/Plugin.php:1670-1675 | an issued code opens its record exactly when it is truthy |
| Tokens.ArrayCodeAccepted | Classes/Plugin.php:1670-1675 | as written, a non-empty array aC passes aCAuth() for every record and the setfixed test for every code |
| Tokens.HexPrefixNotArray | Classes/Plugin.php:1777 | no prefix of a hexadecimal digest is the string "Array" |
| Tokens.CastArrayRefused | Classes/Plugin.php:165 | with aC cast to a string, an array opens no record and matches no setfixed code, when md5() gives hexadecimal digits |
| Tokens.SetfixedHashListed | Classes/Plugin.php:1765-1780 | the hash depends only on the listed fields |
| Tokens.ListedFields | Classes/Plugin.php:1189-1197 | the merged list is free of repeats and holds every block key except _FIELDLIST |
| Tokens.Merge | Classes/Plugin.php:1189-1197 | the block gains _FIELDLIST set to the merged list and keeps every other value |
| Tokens.ProcessCodeList | Classes/Plugin.php:1199-1205 | the list hashed over is the block's merged list |
| Tokens.ExpectedCode | Classes/Plugin.php:1199-1205 | for a found record, the code hashes the merged record over its merged list; for a missing one, what implode() of the integer 0 gives: no values |
| Tokens.MissingRecordCode | Classes/Plugin.php:1199-1205 | for a missing record every block expects the digest prefix of "|addKey|encryption key" |
| Tokens.MarkerNameInjective | Classes/Plugin.php:1748-1749 | different names give different setfixed markers |
| Tokens.Put2 | Classes/Plugin.php:1748-1749 | the link and its HSC copy are set; all other markers stay |
| Tokens.EntryMarkers | Classes/Plugin.php:1717-1754 | a DELETE entry sets the DELETE marker to its link; markers of other names stay |
| Tokens.DeleteMarkerFrom | Classes/Plugin.php:1717-1754 | with a DELETE entry and no dotted DELETE. block, the DELETE marker holds the DELETE link |
| Tokens.BlockLinkVerifies | Classes/Plugin.php:1728-1746 | a dotted block's link code is the code procesSetFixed() expects |
| Tokens.FixedDeleteLinkVerifies | Classes/Plugin.php:1721-1726 | the corrected DELETE link carries the expected code |
| Tokens.DeleteLinkNeverVerifies | Classes/Plugin.php:1721-1726 | without a DELETE. block, the as-written link hashes a different string than procesSetFixed() does |
| FormUpdate.EscapeData | Classes/Plugin.php:1855-1866 | escapeHTML keeps the keys and escapes each value |
| FormUpdate.EscapeSafe | Classes/Plugin.php:1855-1866 | escaped values hold no tag and keep their shape |
| FormUpdate.EscapeRoundTrip | Classes/Plugin.php:1855-1866 | for a value whose strings are well-formed UTF-8, decoding the escaped value gives back its string form |
| FormUpdate.TwiceStep | Classes/Plugin.php:1329-1348 | twice adds field_again (kept if present, else copied) and names it as updated; nothing else changes |
| FormUpdate.ExplodeItems | Classes/Plugin.php:1349-1353 | multiple turns the comma list into an array indexed from 0 |
| FormUpdate.UnpackBits | Classes/Plugin.php:1354-1363 | each set bit's checkbox entry becomes 1, and other entries stay |
| FormUpdate.BoxFieldInjective | Classes/Plugin.php:1354-1363 | different positions name different entries |
| FormUpdate.UnpackMarks | Classes/Plugin.php:1354-1363 | set bits mark their entries, clear bits leave theirs as they were |
| FormUpdate.CheckboxRoundTrip | Classes/Plugin.php:1354-1363 | after checkArray, the form update marks exactly the checked boxes |
| FormUpdate.ModifyDataArrForFormUpdate | Classes/Plugin.php:1319-1377 | the values prepared for the form hold no tags |
| FormUpdate.FormKeeps | Classes/Plugin.php:1319-1377 | a field that no twice, multiple or checkArray entry writes comes back escaped, and a missing one stays missing |
| FormUpdate.FormTwice | Classes/Plugin.php:1329-1348 | a present field listing twice comes back with field_again: the sent companion, or else its own value, escaped |
| FormUpdate.FormMultiple | Classes/Plugin.php:1349-1353 | a multiple field comes back as the array of its comma-separated items, escaped, and as sent in a preview; presence is kept |
| FormUpdate.FormCheckbox | Classes/Plugin.php:1354-1363 | for a field stored by checkArray (lines 441-457), the form copy sets exactly the checked positions' entries to "1" and keeps every other position's entry, escaped |
| FormUpdate.TwiceAllEffect | Classes/Plugin.php:1329-1348 | after a prefix of the evalValues. loop, field_again exists exactly when it was sent or the field is present and twice was listed, and holds the sent or the copied value |
| FormUpdate.FormParseAllSole | Classes/Plugin.php:1349-1363 | the whole parseValues. loop does on a field and its checkbox entries what the field's sole multiple or checkArray command does |
| Helpers.ScrubBackUrl | Classes/Plugin.php:154-161 | a URL that fails the XSS test becomes empty; the result uses only characters of the input |
| Helpers.ScrubbedHasNoMarkup | Classes/Plugin.php:154-158 | the scrubbed backURL holds no quote or angle bracket |
| Helpers.SafeWithout | Classes/Plugin.php:154-156 | a URL without those characters passes the XSS test |
| Helpers.StripHosts | Classes/Plugin.php:161 | the host removal never lengthens the URL, uses only its characters, and a result of equal length is the URL itself |
| Helpers.UnchangedNoHost | Classes/Plugin.php:161 | a URL the removal leaves alone has no scheme://host in it |
| Helpers.BackUrlReformsHost | Classes/Plugin.php:161 | as written, one pass can leave a new scheme://host |
| Helpers.StripHostsFixed | Classes/Plugin.php:161 | the repeated removal leaves no scheme://host |
| Helpers.ScrubBackUrlFixed | Classes/Plugin.php:154-161 | the corrected scrub empties unsafe URLs and leaves no scheme://host |
| Helpers.IsHtmlContentIff | Classes/Plugin.php:1645-1655 | content is HTML exactly when, trimmed, it is at least 13 characters and starts with <html> and ends with </html>, ignoring case |
| Helpers.TitleText | Classes/Plugin.php:1617 | the text between the title delimiters holds no delimiter |
| Helpers.TrimmedTitleNoTag | Classes/Plugin.php:1617-1618 | the trimmed title holds no delimiter |
| Helpers.HtmlSubject | Classes/Plugin.php:1618 | the subject is the trimmed title, or the default message when that is falsy; never falsy |
| Helpers.FirstLine | Classes/Plugin.php:1626 | explode(LF, s, 2): the first line has no newline, and the two parts rejoin to s |
| Helpers.PlainParts | Classes/Plugin.php:1625-1628 | the plain subject holds no newline |
| Helpers.MailParts | Classes/Plugin.php:1615-1633 | HTML content is sent whole with the title subject; a plain subject has no newline |
| Helpers.PlainMailSplit | Classes/Plugin.php:1624-1633 | plain content: the subject is the trimmed first line and the body the trimmed rest, or the whole content with an empty body |
| Helpers.RemovedWarnings | Classes/Plugin.php:1268-1278 | a field's warning subpart is removed exactly when it is required and not in the failure list |
| Helpers.BlankRequiredKeepsWarning | Classes/Plugin.php:1268-1278 | a required field left blank keeps its warning after evalValues |
| PhpStrings.TrimSpec | Classes/Plugin.php:419 | trim() leaves no leading or trailing whitespace and is a slice of its input |
| PhpStrings.TrimLeftSpec | Classes/Plugin.php:419 | ltrim removes exactly a whitespace prefix |
| PhpStrings.TrimRightSpec | Classes/Plugin.php:419 | rtrim removes exactly a whitespace suffix |
| PhpStrings.TrimIdempotent | Classes/Plugin.php:419 | trimming twice is trimming once |
| PhpStrings.Explode | Classes/Plugin.php:863 | explode() gives at least one piece, and no piece holds the delimiter |
| PhpStrings.ImplodeExplode | Classes/Plugin.php:863 | implode of the explode is the string |
| PhpStrings.ExplodeImplode | Classes/Plugin.php:176-177 | explode of the implode of delimiter-free pieces gives the pieces |
| PhpStrings.TrimExplodePieces | Classes/Plugin.php:176-177 | trimExplode pieces are trimmed, hold no delimiter, and are non-empty when asked |
| PhpStrings.Intersect | Classes/Plugin.php:863-864 | array_intersect keeps exactly the entries in both lists |
| PhpStrings.Dedup | Classes/Plugin.php:1197 | array_unique keeps every entry once |
| PhpStrings.Keep | Classes/Plugin.php:407 | the filter keeps only characters of the class |
| PhpStrings.KeepFixedIff | Classes/Plugin.php:407 | the filter keeps a string exactly when all its characters are in the class |
| PhpStrings.KeepIdempotent | Classes/Plugin.php:407 | filtering twice is filtering once |
| PhpStrings.IntVal | Classes/Plugin.php:397 | intval() gives a 64-bit integer |
| PhpStrings.IntValNatToStr | Classes/Plugin.php:397 | intval reads back a number's decimal string |
| PhpStrings.LooseEqByValue | Classes/Plugin.php:680 | loose != compares numeric strings by value: "05", "5.0" and "5e0" equal "5", "05" is not "5" as a string, and "5" and "5a" differ |
| PhpStrings.IntNumericValue | Classes/Plugin.php:680 | an integer string is numeric, and its numeric value is its intval() when in range |
| PhpStrings.Prefix | Classes/Plugin.php:1777 | substr($s, 0, $l) with negative lengths counted from the end |
| PhpStrings.RawUrlEncode | Classes/Plugin.php:210 | rawurlencode() output holds only unreserved characters and escapes |
| PhpStrings.RawUrlRoundTrip | Classes/Plugin.php:210 | decoding rawurlencode() output gives back the byte string |
| PhpStrings.SpecialChars | Classes/Plugin.php:211 | htmlspecialchars() output holds no angle bracket, and no double quote with quotes on |
| PhpStrings.SpecialCharsEmptyIff | Classes/Plugin.php:211 | htmlspecialchars() gives "" exactly for "" and for a string that is not well-formed UTF-8, such as the byte 0xFF |
| PhpStrings.SpecialCharsRoundTrip | Classes/Plugin.php:211 | decoding htmlspecialchars() output gives back any well-formed UTF-8 string |
| PhpStrings.IntToStrValidUtf8 | Classes/Plugin.php:1862 | the decimal string of an integer is well-formed UTF-8, so it survives htmlspecialchars() |
| PhpValues.Assign | Classes/Plugin.php:1202 | $r[$k] = $v sets k, keeps other keys, and appends only a new key |
| PhpValues.AssignAbsent | Classes/Plugin.php:1202 | assigning a new key appends it |
| PhpValues.AssignAllGet | Classes/Plugin.php:1201-1204 | after the loop, each key the block names has the block's value |
| PhpValues.Unset | Classes/Plugin.php:1212 | unset() removes the key and keeps the others |
| PhpValues.Keys | Classes/Plugin.php:1203 | array_keys() lists the keys in order |

## Left out

- The display screens, templates and marker substitution are foreign calls into
  ContentObjectRenderer. This covers getSubpart, substituteMarkerArray,
  fillInMarkerArray, setCObjects, getCaptcha and getPlainTemplate. Screens
  are modelled only as which subpart is chosen.
- The global markers other than the three BACK_URL markers are not modelled. They
  are GW1B/GW1E, colours, FORM_URL, THE_PID, REC_UID, AUTH_CODE and
  HIDDENFIELDS, and they come from stdWrap and typoLink_URL calls.
- Mail transport and compileMail's recipient lookup are left out. Only
  the subject/body split of sendMail is modelled.
- File handling (processFiles, deleteFilesFromRecord) is left out. The `files`
  directive clears the field unless the command is create without doNotSave;
  on create the field keeps its submitted value.
- The `random` directive takes its digest as the parameter `entropy`, because
  uniqid and microtime are nondeterministic. `date()` for addDate is an input
  string.
- md5, serialize's digest, validEmail, getTreeList, DBmayFEUserEdit, the login
  state and the captcha extension's presence are inputs, because they are
  foreign calls or globals.
- The userFunc hooks (evalFunc, userFunc_afterSave, userFunc_updateArray) are
  user code and are not called. The debug and var_dump calls are left out too.
- The fe_userOwnSelf update after creating an fe_users record is a second
  foreign DBgetUpdate, and is not modelled.
- Cache clearing and no-cache headers are left out.
- The infomail and the delete/edit/create display screens are left out. Only
  their selection is modelled.
- One PHP 7 behaviour is approximated. An array used where a string is
  expected reads as "Array", where PHP's internal functions return null.
  The aC parameter is the exception: both halves of its strcmp() behaviour
  are modelled (third Findings row).
- PluginClass.Plugin.ReadRequest: casts aC to a string, which the program
  does not do (Plugin.php:165). On aC[]=1 the program's aCAuth() and
  setfixed tests pass for every record; the class refuses them.
- Lifecycle.SetfixedOutcomes: is stated over the aC the class holds, cast to
  a string. For an array aC the program succeeds whatever the code
  (Lifecycle.SetfixedArrayDeletes).
- Lifecycle.SaveOutcome: its gate is aCAuth() over the cast aC. For a
  non-empty array aC the program's gate passes and the record may be edited
  whoever asks (Tokens.ArrayCodeAccepted).
- Lifecycle.DeleteOutcome: the same; for a non-empty array aC the program
  deletes any live record.
- PluginClass.Plugin.Init: its contract states the template and table checks
  and the setfixed facts. What deletes and saves may do is stated one level
  down, on Run and Process, over the state after the request is read.
- Lifecycle.CreateAppends: assumes the next uid fits in 64 bits; the new
  record also lacks the tstamp, crdate, cruser_id and fe_cruser_id columns
  (see Store.Insert).
- Store.Update: DBgetUpdate also writes the table's tstamp column (when
  the TCA names one) to the request time; the model writes no timestamp, so
  a table with such a column also changes there on every edit.
- Lifecycle.SetfixedWritesOnly: the block update at Plugin.php:1213-1214 is
  a DBgetUpdate, so it also writes the tstamp column, which the contract's
  list of changed columns leaves out.
- Store.Delete: the soft delete of DBgetDelete also writes the tstamp column
  with the delete column; the model sets only the delete column.
- Lifecycle.EditWritesOnly: inherits that gap. Besides the allowed submitted
  columns, the real edit also changes the row's tstamp column.
- Store.UpdateWritesOnly: the same tstamp gap.
- Store.Insert: DBgetInsert also fills the tstamp, crdate, cruser_id and
  fe_cruser_id columns the TCA names; the modelled row holds only the uid,
  the pid and the allowed submitted columns. It also strips every character
  other than letters, digits and `_` from the field names, which the model
  takes as given.
- Store: DBgetInsert, DBgetUpdate and DBgetDelete belong to TYPO3's
  ContentObjectRenderer, which is not part of this model; the model follows
  their behaviour in the TYPO3 core: the insert drops the data's uid and sets pid
  when the storage pid is not negative, and an update or delete of uid 0
  does nothing.
- PhpStrings.LooseEq: numeric strings are compared as exact rationals, not
  as IEEE doubles; two long numerals that round to the same double, or
  numerals that overflow to INF, compare differently in PHP.
- Store.FirstMatch: compares the field with exact string equality.
  getRecordsByField's SQL `=` follows the column's collation, which usually
  ignores case, so "Foo@x.org" matches a stored "foo@x.org" in the database
  but not in the model; uniqueGlobal and uniqueLocal inherit this.
- Validation.Sprintf1: fills only the first `%s` and leaves every other
  character literal. A configured evalErrors text with `%d`, `%%`, a second
  `%s` or a positional conversion is formatted differently by sprintf().
- Transforms.Apply: `lower` and `upper` map only the ASCII letters A-Z and
  a-z. caseshift() (Plugin.php:399-402) goes through TYPO3's charset
  converter and also maps non-ASCII letters of a UTF-8 string ("ÄRGER"
  becomes "ärger"), which the byte-wise model leaves unchanged.
- Transforms.TransformIdempotent: its idempotence of `lower` and `upper` is
  about the ASCII mapping above, not the multibyte one.
- Transforms.ApplyIdempotent: the same ASCII-only reading of `lower` and
  `upper`.
- PhpStrings.IntVal: reads an optional sign and leading decimal digits. Since
  PHP 7.1 intval() also reads an exponent ("1e3" gives 1000); that form is
  not modelled.
- PluginClass.Plugin.ReadBackUrl: the class uses the corrected scrub
  Helpers.ScrubBackUrlFixed, not the single pass of Plugin.php:161 (see the
  second Findings row). On "http:x://y//evil.com" the program's backURL is
  "http://evil.com" and the model's is "". The as-written scrub is
  Helpers.ScrubBackUrl.
- FormUpdate.FormTwice: stated for field names without `]` and when no
  evalValues. field is itself another field's `_again` companion.
- FormUpdate.FormMultiple: stated for a field whose parseValues. entry holds
  exactly one multiple or checkArray command, with plain (no `]`) names in
  the other entries and no twice entry writing the field.
- FormUpdate.FormCheckbox: stated under the same assumptions as FormMultiple.
- FormUpdate.ModifyDataArrForFormUpdate: the additionalUpdateFields list it
  builds is stated step by step (TwiceStep, UnpackBits), not for the whole
  copy.

## Findings

| source | as written | input that shows it | evidently intended | confidence | as-written member | corrected member |
|---|---|---|---|---|---|---|
| Classes/Plugin.php:1721-1726 | the DELETE link without a DELETE. block hashes the record's values alone | setfixed. with DELETE = 1 and no DELETE. block, for any record without a _FIELDLIST column | the link carries the code procesSetFixed() recomputes, which hashes the record with the empty _FIELDLIST added, so one more bar-separated value | not executed; the two digest inputs differ, so the link opens only on an md5 prefix collision | Tokens.DeleteLinkNeverVerifies | Tokens.FixedDeleteLinkVerifies |
| Classes/Plugin.php:161 | one preg_replace pass of `[A-Za-z]+://[^/]+` | backURL `h:a://b//e` becomes `h://e`, which names host e | no scheme://host is left in backURL | not executed | Helpers.BackUrlReformsHost | Helpers.ScrubBackUrlFixed |
| Classes/Plugin.php:165 | aC is read with _GP() and no (string) cast, unlike cmd and preview; !strcmp($this->authCode, ...) at 1206 and 1672 is then true for an array, because PHP 7's strcmp() returns null | the request ?aC[]=1&cmd=setfixed&sFK=DELETE&rU=N, with setfixed configured, deletes record N; with aC[]=1 aCAuth() opens every record for edit and delete | aC is a string, so a request opens a record only with the code issued for it | not executed; strcmp() on an array returns null with a warning in PHP 7 (PHP 8 throws a TypeError) | Lifecycle.SetfixedArrayDeletes | Lifecycle.SetfixedArrayRefused |

A protocol-relative backURL such as "//evil.com" has no scheme, so even the
corrected scrub keeps it and it still leads off the site. The second row
is only about a scheme://host re-formed by the single pass. In the third
row the corrected reading is the one the class uses; its refusal of every
array assumes, as real md5() guarantees, a digest of hexadecimal digits.
