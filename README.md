# pam_limits reconciliation, modelled in Dafny

The `pam_limits` module edits a PAM `limits.conf`-style file. It makes sure
that one directive, keyed by domain, limit type and limit item, carries a
requested value, in one forward pass over the file's lines. This project
models that pass: the request checks, the classification of each line, the
key match, the merge policy (plain replace, `use_max`, `use_min`), appending
a missing record, and moving the `# End of file` marker to the end. It then
proves what the pass promises.

Layout:

- `text.dfy` has two modules.
  - `Wrappers` holds `Option` and `Result`.
  - `Text` holds the pure string helpers the loop calls: whitespace collapse
    and strip, the cut at the first `#` and the text after it, the split on
    single spaces, decimal parsing, and `str()` of an int. Each comes with
    the lemmas that let a written record be read back.
- `limits.dfy` (`Limits`): the limit types and items, the request, the
  errors, and the outcome `(lines, changed, message)`.
- `reconcile.dfy` (`Reconcile`): the pass itself.
  - `Classify` decides what the pass makes of one line. `Step` is one
    iteration of the loop, `Fold` the whole loop, `Finish` the code after
    it, and `Reconciled` the whole run.
  - The method `Reconcile` is the run written as the loop it is: a `for`
    over the lines whose body is the method `Visit`. It is proved to compute
    `Reconciled`.
- `properties.dfy` (`Properties`) has three parts.
  - A line-by-line description of the run. It says which lines are kept,
    what each one is written as, which comment is carried, whether a change
    is reported, and what the message is. `ReconciledDescribed` proves the
    run equals this description.
  - The promised properties, proved over that description.
  - The rerun (idempotence) results on the written pieces, and the first
    finding below.
- `rerun.dfy` (`FileRerun`): the file as the module reads and writes it.
  The lines a run reads are the file's text cut after each line feed, as
  Python's `for line in f` gives them (`Text.Lines`), and the file a run
  leaves is its pieces written one after another (`Text.Concat`). This
  module proves that rerunning the request on that file, read back line by
  line, changes nothing. It also holds the second finding below.

Input lines are strings that include their terminators. The output is the
sequence of pieces the pass writes, in write order. `FileRerun` joins the
pieces into the file's text and reads it back.

The model keeps these properties of the code:

- The loop-carried comment changes on every line that gets past the blank
  test, including malformed lines and lines of other keys.
- The old comment is cut from the raw line, so it keeps the line terminator.
- The new value is carried across lines, and `use_min` is applied after
  `use_max`.
- The marker is written as `# End of file` with no terminator.
- The fourth field is parsed as an integer before the key is compared. Any
  four-field line whose fourth field is not an integer therefore aborts the
  run, whatever its key.

Whitespace is the ASCII set that Python 2's `\s` and `str.strip` use: space
and `\t` through `\r`. An integer is an optional sign followed by ASCII
digits. `str()` of an int is the decimal text with a leading `-` when the
int is negative.

## Model

| member | source | states |
|---|---|---|
| Limits.TypeName | system/pam_limits.py:95 | each limit type is written as the entry of the accepted type list at that type's own index |
| Limits.TypeNameInjective | system/pam_limits.py:95 | distinct limit types are written as distinct names |
| Limits.ItemName | system/pam_limits.py:93 | each limit item is written as the entry of the accepted item list at that item's own index |
| Limits.ItemNameInjective | system/pam_limits.py:93 | distinct limit items are written as distinct names |
| Text.Normalize | system/pam_limits.py:159 | the collapsed and stripped body neither starts nor ends with whitespace, and is empty exactly when the line is all whitespace |
| Text.Words | system/pam_limits.py:159 | the words of a line are non-empty and hold no whitespace, and there are none exactly when the line is all whitespace |
| Text.NormalizeWords | system/pam_limits.py:159 | the normalized body is the line's words, in order, joined by single spaces |
| Text.CutAtHash | system/pam_limits.py:165 | the part before the first `#` is a prefix of the line with no `#` in it, ending at the `#` or at the end of the line |
| Text.AfterHash | system/pam_limits.py:166-169 | when the line has a `#`, it is the part before it, then `#`, then the result; otherwise the result is empty |
| Text.Split | system/pam_limits.py:179 | the pieces are at least one, none contains the separator, and joined with it they give back the input |
| Text.ParseInt | system/pam_limits.py:188 | a value exists exactly when the text is an optional sign followed by at least one digit; the value is the digits' decimal value, negated after a `-` |
| Text.ParsePlus | system/pam_limits.py:188 | a leading `+` gives the same value as the digits alone |
| Text.ParseLeadingZero | system/pam_limits.py:188 | leading zeros do not change the value |
| Text.ParseMinusZero | system/pam_limits.py:188 | `-0` is zero |
| Text.IntToString | system/pam_limits.py:207 | the decimal text of a value parses back to it, is in the canonical form `str()` writes (no `+`, no leading zero, no `-0`, `-` exactly for a negative value), is non-empty, and holds no whitespace and no `#` |
| Text.CanonicalUnique | system/pam_limits.py:207 | two canonical texts that parse to the same value are equal, so the text written is the only canonical one for its value |
| Reconcile.Classify | system/pam_limits.py:152-188 | a line is the marker exactly when it starts with `# End of file`, a comment exactly when it starts with `#` otherwise, and blank exactly when it is neither and all whitespace |
| Reconcile.ClassifyActive | system/pam_limits.py:165-188 | a line past the blank test is malformed exactly when its body is not four fields, has a bad value exactly when it is four fields whose fourth is not an integer, and is otherwise the record of those fields and that value; in every case it carries the text after its first `#` |
| Reconcile.NextComment | system/pam_limits.py:173-177 | the carried comment stays empty only when it and the line's comment are empty; a non-empty result starts with a tab and `#`; a non-empty carried comment gains exactly one tab-`#` prefix |
| Reconcile.Visit | system/pam_limits.py:150-214 | one iteration of the loop on a classified line yields exactly the step of the specification, including the abort on a non-integer fourth field |
| Reconcile.Reconcile | system/pam_limits.py:132-223 | the loop over all lines followed by the ending computes the run's specification on every input |
| Reconcile.ClassifyRecordText | system/pam_limits.py:207 | a record the pass writes, with plain-word fields and a comment it builds itself, reads back as a record of the same key and value |
| Properties.FoldShaped | system/pam_limits.py:150-214 | after any prefix of the lines, the loop state is the one the line-by-line description gives |
| Properties.ReconciledDescribed | system/pam_limits.py:146-223 | the run equals the description: refusal on conflicting flags, the first bad line, or the written lines, change flag and message |
| Properties.WrittenAt | system/pam_limits.py:150-214 | each non-marker input line is written at its own position as its emission |
| Properties.Passthrough | system/pam_limits.py:155-214 | a comment, a blank line, a line that is not four fields or a record of another key is written verbatim at its position |
| Properties.EqualValueKept | system/pam_limits.py:191-196 | a record of the key that already holds the requested value is written verbatim under every policy |
| Properties.ChangedExactly | system/pam_limits.py:204-220 | a change is reported exactly when no line carries the key or some record of the key is rewritten |
| Properties.PlainReplace | system/pam_limits.py:204-209 | with neither flag, a record of the key with another value is replaced by the record with the requested value, and a change is reported |
| Properties.MaxPolicy | system/pam_limits.py:198-212 | with `use_max`, a record of the key is written with the larger value when that differs from its own, reporting a change; otherwise it is kept verbatim |
| Properties.MinPolicy | system/pam_limits.py:201-212 | with `use_min`, the same with the smaller value |
| Properties.AppendIffMissing | system/pam_limits.py:216-220 | exactly one record with the requested value is appended after the kept lines when no line carries the key, with a change and that message; otherwise nothing is appended |
| Properties.KeyTextNotComment | system/pam_limits.py:207 | a record the pass writes for a domain not starting with `#` does not start with `#` |
| Properties.KeyTextNotMarker | system/pam_limits.py:207 | a record the pass writes for a domain not starting with `# End of file` is not a marker |
| Properties.SentinelLast | system/pam_limits.py:222-223 | for a domain not starting with `# End of file`, the output ends in a marker exactly when the input had one, that last line is exactly `# End of file`, and no earlier output line is a marker |
| Properties.ConflictRefused | system/pam_limits.py:132-133 | the run refuses with the conflicting-policy error exactly when both flags are set |
| Properties.BadLineAborts | system/pam_limits.py:185-188 | the run fails exactly when some line is four fields with a non-integer fourth field, and the error names the first such line |
| Properties.CommentAfterGiven | system/pam_limits.py:176-177 | a requested comment gains one tab-`#` prefix per line past the blank test |
| Properties.CommentAfterFirst | system/pam_limits.py:173-177 | without a requested comment, the first non-empty trailing comment is taken and prefixed once for its own line and once for each later line |
| Properties.CommentAfterNone | system/pam_limits.py:173-174 | without a requested comment and with no trailing comments, no comment is carried |
| Properties.StableRun | system/pam_limits.py:190-214 | a run over lines that are settled (no bad line, no record the policy moves), with one carrying the key, writes the non-marker lines as they are, reports no change, and reports the last record of the key |
| Properties.RerunUnchanged | system/pam_limits.py:146-223 | running the same request on the written pieces, taken as its lines, gives the same lines and message and reports no change, when the domain is one plain field and, if a comment is requested, some line got past the blank test |
| Properties.GluedCommentIsBad | system/pam_limits.py:218 | a record appended with a bare comment whose first character is not a digit has a fourth field that is not an integer |
| Properties.BareCommentBreaksRerun | system/pam_limits.py:216-220 | on an empty file with such a comment, the run appends the glued record, and rerunning the request on that output fails on that record |
| Properties.BareCommentExample | system/pam_limits.py:218 | one concrete request meets those conditions, and its appended record is `u<TAB>soft<TAB>nofile<TAB>5x` |
| Properties.FixedDescribed | system/pam_limits.py:216-220 | the corrected run differs from the run as written only in the comment of the appended record |
| Properties.FixedAgrees | system/pam_limits.py:216-220 | where nothing is appended, or the appended comment is already introduced, the corrected run equals the run as written |
| Properties.RerunUnchangedFixed | system/pam_limits.py:216-220 | with the appended comment introduced as intended, rerunning on the written pieces gives the same lines and message with no change, for every input the corrected run accepts and every comment, given a domain that is one plain field |
| Text.FirstLineIs | system/pam_limits.py:150 | the first line of a text is a prefix of it with a line feed at most at its end, and it is the whole text or ends in a line feed |
| Text.LinesAreLines | system/pam_limits.py:150 | reading a text line by line gives non-empty lines, each with a line feed at most at its end, every one but the last ending in one |
| Text.ConcatLines | system/pam_limits.py:150 | writing a text's lines one after another gives the text back |
| Text.LinesConcat | system/pam_limits.py:150 | lines of that shape, written one after another and read back, are those lines |
| Text.LinesOfPieces | system/pam_limits.py:150-223 | pieces written one after another, each but the last ending in a line feed, read back as the lines of each piece in turn |
| FileRerun.KeyTextOneLine | system/pam_limits.py:207 | a record the pass writes with a comment that has no line feed is one complete line |
| FileRerun.KeyTextTwoLines | system/pam_limits.py:207 | a record whose comment keeps its line feed reads back as the record without it, then an empty line |
| FileRerun.CommentAfterBreak | system/pam_limits.py:165-177 | over lines read from a file, the carried comment has a line feed at most at its end whenever the requested comment does |
| FileRerun.KeyLinesQuiet | system/pam_limits.py:190-214 | every line read back from a record the pass writes at a value the policy keeps is passed over by a second run, and the first carries the key |
| FileRerun.WrittenFile | system/pam_limits.py:150-223 | the file a run left, read back line by line, is the lines of its pieces before the marker, then the marker when it wrote one |
| FileRerun.FileRerunUnchanged | system/pam_limits.py:142-229 | running the same request again on the file a run left, read back line by line, rewrites nothing, appends nothing, reports no change, leaves the file's text as it was, and reports a line of the key; for a domain that is one plain field, a requested comment with a line feed at most at its end, and an input file whose last line is complete or the marker |
| FileRerun.UnterminatedCommentGlued | system/pam_limits.py:150-220 | on a file of one comment line with no line feed, the run appends the record and reports a change; the file it leaves, the line and the record with no line feed between them, reads back as one line, and rerunning on it appends the record again and reports a change again |
| FileRerun.UnterminatedExample | system/pam_limits.py:216-220 | one concrete request and file meet those conditions; the record is `u<TAB>soft<TAB>nofile<TAB>5` and a line feed |
| FileRerun.Completed | system/pam_limits.py:150 | the corrected read leaves a file whose last line is complete, or is the marker, as it is |
| FileRerun.CompletedEnds | system/pam_limits.py:150 | after the corrected read, the file's last line ends in a line feed or is the marker |
| FileRerun.CompletedAgrees | system/pam_limits.py:216-223 | on a file whose last line is complete, where nothing is appended or the appended comment is already introduced, the corrected run equals the run as written |
| FileRerun.FileRerunFixed | system/pam_limits.py:142-229 | the corrected run, rerun on the file it left, rewrites nothing, appends nothing, reports no change, leaves the file's text as it was, and reports a line of the key; for every file and every requested comment with a line feed at most at its end, given a domain that is one plain field |

## Left out

- Argument parsing and choice validation by `AnsibleModule`
  (system/pam_limits.py:99-122). The request is an already-validated
  datatype whose type and item are enums. The type list follows the code's
  `pam_types` (:95), which includes `-`.
- The file existence and writability checks (:126-130), the backup
  (:136-137), the temporary file (:144), closing the files (:225-226) and
  `atomic_move` (:229). These are file-system I/O. The lines read are a
  parameter, and the written pieces are the result.
- `fail_json` and `exit_json` (:128-133, :231-238). They become an `Err`
  result, or the `Outcome` of lines, change flag and message.
- The wider syntax of Python's `\s` and `int()`: Unicode whitespace and
  digits, underscores, and whitespace around the digits. Whitespace here is a
  fixed ASCII set, and an integer is an optional sign followed by ASCII
  digits.
- The `DOCUMENTATION` and `EXAMPLES` strings (:26-89). They are metadata.
- The run's own result is the sequence of `nf.write` pieces. A piece can
  hold two line feeds, for example a rewritten record whose carried comment
  keeps its terminator. `FileRerun` joins the pieces into the file's text
  and reads that back line by line.
- The file's encoding and any line ending other than a line feed are not
  modelled. A line ends after its line feed.
- RerunUnchanged: idempotence is stated on the piece sequence a run writes,
  taken as lines. It also requires a domain that is one plain field and,
  when a comment is requested, some line that gets past the blank test. The
  first finding shows why the comment condition is needed.
  FileRerun.FileRerunUnchanged states it on the file read back.
- FileRerunUnchanged: it requires a domain that is one plain field, a
  requested comment with a line feed at most at its end, the same comment
  condition as RerunUnchanged, and an input file whose last line ends in a
  line feed or is the marker. The second finding shows why the last
  condition is needed. A requested comment with a line feed inside it
  splits the written record over several lines; that case is not covered.
- FileRerunUnchanged: the rerun's message is stated to be a line of the key,
  not to equal the first run's message. The first message can be a whole
  piece that reads back as two lines.
- Python 2 byte-string details (`str` versus `unicode`) are not modelled.
  Strings are sequences of characters.

## Findings

| source | as written | input that shows it | evidently intended | confidence | as-written member | corrected member |
|---|---|---|---|---|---|---|
| system/pam_limits.py:216-220 | when no line got past the blank test, the record is appended with the requested comment bare (`new_comment` never gained its tab-`#` prefix), glued to the value | request domain `u`, type `soft`, item `nofile`, value 5, comment `x`, on an empty file: the run writes `u<TAB>soft<TAB>nofile<TAB>5x` and a line feed, and rerunning the same request on that file fails because `5x` is not an integer | the appended comment is introduced by a tab and `#`, as on every other written record, so that rerunning the request keeps the file as it is | not executed | Properties.BareCommentBreaksRerun | Properties.RerunUnchangedFixed |
| system/pam_limits.py:150-223 | a last line without a line feed is written back as it is, so the record appended after it, or the marker, is glued onto that line | a file holding only `#x` with no line feed, and request domain `u`, type `soft`, item `nofile`, value 5, no comment: the file left is the single comment line `#xu<TAB>soft<TAB>nofile<TAB>5` and a line feed, so rerunning the same request appends the record again and reports a change | the appended record and the marker start a line of their own, so that rerunning the request keeps the file as it is | not executed | FileRerun.UnterminatedCommentGlued | FileRerun.FileRerunFixed |

The corrected run of the second row, `FileRerun.ReconciledText`, reads an
unterminated last line as if it ended in a line feed (`FileRerun.Completed`)
and includes the correction of the first row. It therefore completes such a
line even when nothing is written after it: on the file `# c`, a line feed,
`joe soft nofile 500` with no line feed, and the request joe, soft, nofile,
500, it writes the last line back with a line feed and reports no change,
where the source writes that line back as it is.
