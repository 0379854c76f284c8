# lms_operator write filter, modelled in Dafny

The lms_operator kernel module is meant to put a hook, `lms_vfs_write`, in
front of the kernel's `vfs_write` (as written it does not manage to; see
"Left out"). Every write to a file whose dentry name is `passwd` is
copied into a private kernel buffer of `count + 1` bytes and terminated with
NUL. The buffer is then scanned line by line:

- each '\n' is overwritten with NUL;
- `strchr` looks for a ':' in the line;
- a line with a ':' that is not its first character is handed to
  `is_allowed_user`, which is `strcmp` against "operator";
- the first line that is rejected makes the hook return `-EPERM`;
- every other write, and every write the hook cannot copy, is forwarded
  unchanged through the module's pointer `real_vfs_write`. The model
  represents forwarding by the outcome `Forward` and by the parameter
  `realRet`, the result the forwarded call returns.

The project models that filter in three modules:

- `CStrings` (`cstrings.dfy`): the C string routines the filter uses, on
  character sequences. `CLen` is `strlen`, `CString` is the string up to its
  first NUL, `StrChr` is `strchr` and `StrEq` is `strcmp(a, b) == 0`. Each one
  has a lemma that characterises it.
- `PasswdFilter` (`filter.dfy`): the filter itself, in two forms.
  - `Decide` is a function from the target, the copy's success and the payload
    to an `Outcome` (`Forward`, or `Deny(name)`). It is built from `Lines`
    (the lines the scan visits), `Denies` (the per-line test) and `Verdict`
    (the first denying line decides).
  - `VfsWrite` is a method that does what the module does. It copies the
    caller's array into a fresh `kbuf` array one longer and writes the NUL.
    It then runs the loop (`ScanKernelBuffer`, one line per `ScanLine`), which
    overwrites each '\n' in place (`CutLine`). It is proved to return exactly
    the outcome `Decide` gives, and to change nothing in `kbuf` except
    '\n' characters of the scanned text that become NUL.
- `FilterProperties` (`properties.dfy`): what the filter guarantees, proved
  over `Decide`. This covers deny-wins, which lines deny, the round trip of
  the line split, and the irrelevance of a trailing '\n' and of anything after
  a NUL. It also covers the record of the allowed user itself (see Findings).

The module's comments say it lets the user "operator" be added, but as written
it passes the whole line to `is_allowed_user`, not the name before the ':'.
`Decide` models the code as written. `DecideIntended` is the same filter
comparing only the identity field, and both are given their properties.

On an allocation or copy failure the hook forwards the write unchecked
(fail-open, lines 38-39 and 59-61 of `lms_operator_lkm.c`). The model follows
the code.

## Model

| member | source | states |
|---|---|---|
| PasswdFilter.IsAllowedUserSpec | lms_operator_lkm.c:26-28 | `is_allowed_user` accepts a C string exactly when it equals "operator", so nothing longer, shorter or different passes |
| PasswdFilter.IsPasswdSpec | lms_operator_lkm.c:36-37 | the hook inspects a write exactly when file, dentry and name are all non-null and the name's C string is "passwd" |
| PasswdFilter.VfsWrite | lms_operator_lkm.c:33-63 | the hook's outcome is `Decide` of the target, the copy's success and the caller's buffer; it returns `-EPERM` on a denial and the real write's result otherwise; the caller's buffer is not written (the method has no modifies clause) |
| PasswdFilter.ScanKernelBuffer | lms_operator_lkm.c:40-57 | the scan over the NUL-terminated kernel buffer returns the deny-wins verdict over the lines of its C string; its only writes to the buffer turn '\n' into NUL (`NewlinesCut`), none of them at or after the terminating NUL, and they do not change that verdict |
| PasswdFilter.ScanLine | lms_operator_lkm.c:43-56 | one loop pass ends the scan with the verdict on the lines left (it denies, or no '\n' follows), or it moves to just past the '\n' with that verdict unchanged; on every exit the buffer before the line and from the terminating NUL on is untouched and its only writes turn '\n' into NUL (`NewlinesCut`), and when the scan goes on, the buffer is exactly the old one with the '\n' just before `start` cut (`CutAt`) |
| PasswdFilter.CutLine | lms_operator_lkm.c:44-45 | `strchr` finds the first '\n' before the NUL; the new buffer is the old one with that '\n', and nothing else, overwritten with NUL (unchanged when there is none), so the line reads as a C string and the text before and after it is unchanged |
| PasswdFilter.ScanStep | lms_operator_lkm.c:43-46 | the C string that one pass reads is exactly the next line `Lines` yields, and the text after its '\n' is what the later lines come from |
| PasswdFilter.LineDecision | lms_operator_lkm.c:46-49 | the loop's test on a line (a ':' before the NUL, not at offset 0, and `is_allowed_user` false) holds exactly when `Denies` holds for the line; the `%.*s` name is the line's identity field |
| PasswdFilter.LineStep | lms_operator_lkm.c:43-56 | a pass denies exactly when the first line left denies, reporting its identity; otherwise it forwards when no '\n' was found, or leaves the verdict to the lines after the '\n' |
| FilterProperties.DenyWins | lms_operator_lkm.c:43-57 | a write of lines is refused exactly when at least one line denies, wherever it is |
| FilterProperties.DenialNamesFirst | lms_operator_lkm.c:49-52 | a denial names the first denying line's identity field, and every line before that one was let through |
| FilterProperties.DeniesAsWritten | lms_operator_lkm.c:46-49 | as written, a line denies exactly when it holds a ':' and does not start with one, because a line holding a ':' never equals "operator" |
| FilterProperties.DeniesIntended | lms_operator_lkm.c:41-49 | with the identity field compared, a line denies exactly when it holds a ':', does not start with one, and the text before the ':' is not "operator" |
| FilterProperties.IdentitySplit | lms_operator_lkm.c:46-48 | the reported name is the text before the first ':', holds no ':', and the line is that name, a ':', and the rest |
| FilterProperties.PasswdDecision | lms_operator_lkm.c:36-62 | the hook as written refuses a write exactly when it targets "passwd", the copy succeeded and some scanned line has a ':' after its first character; so other targets and failed copies are always forwarded (fail-open) |
| FilterProperties.PasswdDecisionIntended | lms_operator_lkm.c:36-62 | the intended filter refuses exactly when it targets "passwd", the copy succeeded and some scanned line's identity field is non-empty and not "operator" |
| FilterProperties.LinesHaveNoNewline | lms_operator_lkm.c:44-45 | no line the scan reads contains a '\n' |
| FilterProperties.LinesRoundTrip | lms_operator_lkm.c:43-56 | rejoining the scanned lines with '\n' gives back the text except for a final '\n', so the scan skips no character of the text |
| FilterProperties.LinesAppendNewline | lms_operator_lkm.c:55-56 | appending '\n' to a text adds at most one empty line (only when the text is empty or already ends in '\n') |
| FilterProperties.VerdictEmptyLast | lms_operator_lkm.c:47 | an empty line at the end never changes the verdict, because it has no ':' |
| FilterProperties.TrailingNewlineIrrelevant | lms_operator_lkm.c:40-56 | appending '\n' to the payload changes neither the outcome as written nor the intended one |
| FilterProperties.NulHidesRest | lms_operator_lkm.c:40-43 | whatever follows a NUL in the payload is never inspected: the outcome is that of the payload cut at the NUL |
| FilterProperties.OperatorRecordScan | lms_operator_lkm.c:43-46 | a one-line record `operator:...` is scanned as that single line, and its first ':' is right after "operator" |
| FilterProperties.OperatorRecordDeniedAsWritten | lms_operator_lkm.c:49 | as written, a write to "passwd" of the record `operator:...` is refused, naming "operator" |
| FilterProperties.OperatorRecordForwardedIntended | lms_operator_lkm.c:49 | with the identity field compared, that same record is forwarded |
| CStrings.CLenSpec | lms_operator_lkm.c:43 | `strlen` stops at the first NUL: no NUL before it, and a NUL at it unless the buffer ran out |
| CStrings.FindSpec | lms_operator_lkm.c:44-46 | a search returns the first occurrence, and nothing exactly when there is none |
| CStrings.FindAppend | lms_operator_lkm.c:44-46 | searching a concatenation finds the left part's first occurrence, or else the right part's, shifted |
| CStrings.StrChrSpec | lms_operator_lkm.c:44-46 | `strchr` returns a position holding the character with neither it nor NUL before; when it returns nothing, the character is absent before the NUL |
| CStrings.StrEqSpec | lms_operator_lkm.c:27 | `strcmp(a, b) == 0` holds exactly when the two C strings are equal |
| CStrings.CStringExtend | lms_operator_lkm.c:40 | once a buffer holds a NUL, nothing after the buffer changes the C string it holds |
| CStrings.CStringCut | lms_operator_lkm.c:45 | writing NUL inside a C string cuts it at that point |

## Left out

- Hook installation (lines 71-73): `kallsyms_lookup_name` and the store into `real_vfs_write` are not modelled. As written, lines 71-73 only assign the module's own variable `real_vfs_write`: nothing in the kernel is redirected, so the kernel never calls `lms_vfs_write`. And line 73 stores the hook into the very pointer it forwards through, so a forwarded call would reach the hook again. The model takes the hook as installed and the forwarded write as abstract: the outcome `Forward`, and the parameter `realRet` for what that write returns.
- Module init and the missing exit function (lines 65-85): the init messages, `THIS_MODULE->exit = NULL` and the absent `module_exit` are not modelled.
- `kmalloc` and `copy_from_user` (lines 38-39): modelled by the single flag `copyOk`. This includes a `count + 1` that wraps to 0 for the largest `size_t`: the model allocates `count + 1` characters as an unbounded integer and folds any failure into `copyOk == false`.
- `kfree` (lines 51 and 59): memory release has no observable effect on the outcome.
- Logging (`pr_err`, `pr_info`, lines 50, 66, 74 and 76): only the name that line 50 prints is kept, as the `name` of `Deny`.
- The file position `pos` and concurrent writers: the filter never reads `pos`, and the model treats each write on its own.
- Bytes: the payload and names are Dafny characters, not 8-bit bytes. The filter only compares characters for equality with NUL, '\n', ':' and the fixed strings, so the choice of width does not change any outcome.
- VfsWrite: that the caller's buffer is left unchanged is stated by the absence of a modifies clause (Dafny's framing), not by an explicit ensures clause.

## Findings

| source | as written | input that shows it | evidently intended | confidence | as-written member | corrected member |
|---|---|---|---|---|---|---|
| lms_operator_lkm.c:49 | `is_allowed_user(line)` compares the whole line, up to its NUL, with "operator"; a line with a ':' can never equal it, so every record line with a non-empty name is refused, including operator's own | a write to `passwd` of `operator:x:1000:1000::/home/operator:/bin/sh` | compare only the `len` characters before the first ':' (the identity field), so that the record of "operator" is let through | not executed | FilterProperties.OperatorRecordDeniedAsWritten | FilterProperties.OperatorRecordForwardedIntended |
