/**
 * The write filter of the lms_operator kernel module: a hook meant to be
 * placed in front of the kernel's `vfs_write`, which inspects every write to a
 * file named `passwd` and refuses it with `-EPERM` when a line of the written
 * text looks like an account record for anyone but the allowed user.
 *
 * The filter is stated twice: `Decide` says what the outcome is, as a function
 * of the target, of whether the payload could be copied into the kernel and of
 * the payload itself; `VfsWrite` runs the line scan on a private kernel buffer
 * as the module does, and is proved to reach the outcome `Decide` gives.
 */
module PasswdFilter {
  import opened CStrings

  const NEWLINE: char := '\n'
  const COLON: char := ':'

  /** ALLOWED_USER, the one account the filter is meant to let through. */
  const ALLOWED_USER: string := "operator"

  /** The dentry name of the monitored file. */
  const PASSWD: string := "passwd"

  /** Linux's "operation not permitted" error number; the hook returns its negation. */
  const EPERM: int := 1

  /** What the hook reaches of `file->f_path.dentry->d_name.name`: each
      pointer on the way may be null; a name is the characters the kernel
      stores for it. */
  datatype Target = NullFile | NullDentry | NullName | Named(name: string)

  /** The decision on one write: hand it to the real `vfs_write` unchanged, or
      refuse it, naming the characters before the offending line's first ':'. */
  datatype Outcome = Forward | Deny(name: string)

  /** Which string the filter hands to `is_allowed_user` for a line that has a
      ':'. The module as written hands it the whole line; the identity field
      (the characters before the first ':') is what its comments intend. */
  datatype Policy = WholeLine | IdentityField

  /** `is_allowed_user`: `strcmp(username, ALLOWED_USER) == 0` on the C
      string at `username`, so the whole string up to its NUL must be
      exactly "operator". */
  function IsAllowedUser(username: string): bool
    requires NUL in username
  {
    StrEq(username, ALLOWED_USER + [NUL])
  }

  /** `is_allowed_user` accepts exactly the C strings equal to "operator":
      nothing longer, shorter or differing in any character. */
  lemma IsAllowedUserSpec(username: string)
    requires NUL in username
    ensures IsAllowedUser(username) <==> CString(username) == ALLOWED_USER
  {
    CStringTerminated(ALLOWED_USER, []);
    assert ALLOWED_USER + [NUL] + [] == ALLOWED_USER + [NUL];
    StrEqSpec(username, ALLOWED_USER + [NUL]);
  }

  /** The hook's target test: file, dentry and name are all present and the
      name compares equal to "passwd" under `strcmp`. */
  function IsPasswd(t: Target): bool
  {
    t.Named? && StrEq(t.name + [NUL], PASSWD + [NUL])
  }

  /** The target test holds exactly for a present name whose C string is
      "passwd"; a null pointer anywhere on the way means no. */
  lemma IsPasswdSpec(t: Target)
    ensures IsPasswd(t) <==> t.Named? && CString(t.name + [NUL]) == PASSWD
  {
    if t.Named? {
      CStringTerminated(PASSWD, []);
      assert PASSWD + [NUL] + [] == PASSWD + [NUL];
      StrEqSpec(t.name + [NUL], PASSWD + [NUL]);
    }
  }

  /** The lines the scan visits in a NUL-free text: the pieces between
      '\n' characters, where an empty remainder after the last '\n' is not
      visited (the loop stops on the terminating NUL). */
  function Lines(text: string): seq<string>
    decreases |text|
  {
    if text == [] then []
    else match Find(text, NEWLINE)
      case None => [text]
      case Some(k) => [text[..k]] + Lines(text[k + 1..])
  }

  /** The lines of a payload that the scan visits: the payload is copied into
      a buffer one longer, terminated with NUL, and read as a C string. */
  function Scanned(payload: string): seq<string>
  {
    Lines(CString(payload + [NUL]))
  }

  /** The characters of a line before its first ':' (the whole line when it
      has none). */
  function Identity(line: string): string
  {
    match Find(line, COLON)
    case None => line
    case Some(k) => line[..k]
  }

  /** Whether one scanned line makes the filter refuse the write: it has a ':',
      the first ':' is not its first character, and the string handed to
      `is_allowed_user` is not "operator". */
  function Denies(line: string, policy: Policy): bool
  {
    match Find(line, COLON)
    case None => false
    case Some(len) =>
      len > 0 && (if policy == WholeLine then line else line[..len]) != ALLOWED_USER
  }

  /** Deny wins: the lines are checked in order, the first line that denies
      decides the write and the name reported is its identity field; when no
      line denies, the write is forwarded. */
  function Verdict(lines: seq<string>, policy: Policy): Outcome
  {
    if lines == [] then Forward
    else if Denies(lines[0], policy) then Deny(Identity(lines[0]))
    else Verdict(lines[1..], policy)
  }

  /** The outcome of `lms_vfs_write` as written. A write that does not target
      "passwd", or whose payload cannot be copied into the kernel, is
      forwarded unchecked. */
  function Decide(target: Target, copyOk: bool, payload: string): Outcome
  {
    if IsPasswd(target) && copyOk then Verdict(Scanned(payload), WholeLine) else Forward
  }

  /** The outcome the module's comments describe: the same scan, with only a
      line's identity field compared against "operator". */
  function DecideIntended(target: Target, copyOk: bool, payload: string): Outcome
  {
    if IsPasswd(target) && copyOk then Verdict(Scanned(payload), IdentityField) else Forward
  }

  /** Deny wins, one line at a time. */
  lemma VerdictCons(line: string, rest: seq<string>, policy: Policy)
    ensures Verdict([line] + rest, policy) == if Denies(line, policy) then Deny(Identity(line)) else Verdict(rest, policy)
  {
    assert ([line] + rest)[1..] == rest;
  }

  /** How `Lines` visits a non-empty text: the first line runs up to the
      first '\n' (or to the end when there is none), and the rest of the
      lines are those of what follows that '\n'. */
  lemma LinesStep(text: string)
    requires text != []
    ensures Find(text, NEWLINE).None? ==> Lines(text) == [text]
    ensures Find(text, NEWLINE).Some? ==>
              var k := Find(text, NEWLINE).value;
              Lines(text) == [text[..k]] + Lines(text[k + 1..])
  {
  }

  /** The state of one pass of the scan loop, stated on the original buffer
      `orig` (the payload and its terminator) at offset `line`, inside the
      text being scanned: `next` is where `strchr` finds the next '\n', and
      `str` is the buffer from `line` on once that '\n' has been overwritten
      with NUL. */
  predicate LinePass(orig: string, line: nat, next: Option<nat>, str: string)
  {
    && line < CLen(orig) < |orig|
    && next == StrChr(orig[line..], NEWLINE)
    && str == if next.Some? then orig[line..][next.value := NUL] else orig[line..]
  }

  /** In one pass of the scan loop, the C string `str` holds exactly the
      next line `Lines` visits, and `after` is the text left for the lines
      after it. */
  lemma ScanStep(orig: string, line: nat, next: Option<nat>, str: string) returns (current: string, after: string)
    requires LinePass(orig, line, next, str)
    ensures Lines(CString(orig)[line..]) == [current] + Lines(after)
    ensures NUL in str && CString(str) == current
    ensures next.None? ==> after == []
    ensures next.Some? ==> line + next.value < CLen(orig) && after == CString(orig)[line + next.value + 1..]
  {
    var text := CString(orig);
    var rest := text[line..];
    CStringSuffix(orig, line);
    LinesStep(rest);
    match next
    case None =>
      current, after := rest, [];
      CLenStops(orig);
      assert str[CLen(orig) - line] == NUL;
    case Some(k) =>
      current, after := rest[..k], text[line + k + 1..];
      assert rest[k + 1..] == after;
      CStringCut(orig[line..], k);
      assert str[k] == NUL;
  }

  /** What the loop decides about one line, read from the C string `str`
      that holds it: the first ':' that `strchr` finds, and the
      `is_allowed_user` call on `str`, deny exactly when `Denies` says the line
      does, and the name reported is the line's identity field. */
  lemma LineDecision(str: string, current: string)
    requires NUL in str && CString(str) == current
    ensures StrChr(str, COLON) == Find(current, COLON)
    ensures LineDenied(str) <==> Denies(current, WholeLine)
    ensures Denies(current, WholeLine) ==> str[..StrChr(str, COLON).value] == Identity(current)
  {
    IsAllowedUserSpec(str);
  }

  /** The loop's deny test on the C string `str` holding one line: a ':'
      comes before its end, not at its start, and `is_allowed_user` rejects
      `str`. */
  predicate LineDenied(str: string)
    requires NUL in str
  {
    var colon := StrChr(str, COLON);
    colon.Some? && colon.value > 0 && !IsAllowedUser(str)
  }

  /** One pass of the scan loop denies exactly when the first line left to
      scan denies, reporting that line's identity; otherwise it forwards when
      no '\n' was found, and leaves the verdict to the lines after the '\n'. */
  lemma LineStep(orig: string, line: nat, next: Option<nat>, str: string)
    requires LinePass(orig, line, next, str)
    ensures NUL in str
    ensures next.Some? ==> line + next.value < CLen(orig)
    ensures LineDenied(str) ==> Verdict(Lines(CString(orig)[line..]), WholeLine) == Deny(str[..StrChr(str, COLON).value])
    ensures !LineDenied(str) && next.None? ==> Verdict(Lines(CString(orig)[line..]), WholeLine) == Forward
    ensures !LineDenied(str) && next.Some? ==>
              Verdict(Lines(CString(orig)[line..]), WholeLine) == Verdict(Lines(CString(orig)[line + next.value + 1..]), WholeLine)
  {
    var text := CString(orig);
    var current, after := ScanStep(orig, line, next, str);
    LineDecision(str, current);
    VerdictCons(current, Lines(after), WholeLine);
    if !LineDenied(str) {
      assert Verdict(Lines(text[line..]), WholeLine) == Verdict(Lines(after), WholeLine);
      if next.None? {
        assert Lines(after) == [];
      } else {
        assert after == text[line + next.value + 1..];
      }
    }
  }

  /** A pass of the scan loop that denies gives the verdict on the lines
      left to scan. */
  lemma LineStepDeny(orig: string, line: nat, next: Option<nat>, str: string)
    requires LinePass(orig, line, next, str)
    requires NUL in str && LineDenied(str)
    ensures Verdict(Lines(CString(orig)[line..]), WholeLine) == Deny(str[..StrChr(str, COLON).value])
  {
    LineStep(orig, line, next, str);
  }

  /** A pass of the scan loop on the last line that does not deny ends the
      scan with the verdict on the lines left to scan. */
  lemma LineStepLast(orig: string, line: nat, next: Option<nat>, str: string)
    requires LinePass(orig, line, next, str)
    requires NUL in str && !LineDenied(str) && next.None?
    ensures Verdict(Lines(CString(orig)[line..]), WholeLine) == Forward
  {
    LineStep(orig, line, next, str);
  }

  /** A pass of the scan loop on a line that ends in '\n' and does not deny
      leaves the verdict to the lines after that '\n'. */
  lemma LineStepNext(orig: string, line: nat, next: Option<nat>, str: string, start: nat)
    requires LinePass(orig, line, next, str)
    requires NUL in str && !LineDenied(str) && next.Some? && start == line + next.value + 1
    ensures start <= CLen(orig)
    ensures Verdict(Lines(CString(orig)[start..]), WholeLine) == Verdict(Lines(CString(orig)[line..]), WholeLine)
  {
    LineStep(orig, line, next, str);
  }

  /** Cutting a line at its '\n' leaves the text after that '\n' alone. */
  lemma CutLeavesTail(orig: string, before: string, line: nat, i: nat)
    requires line <= i < |before| == |orig|
    requires before[line..] == orig[line..]
    ensures before[i := NUL][i + 1..] == orig[i + 1..]
  {
    forall j | i + 1 <= j < |orig|
      ensures before[i := NUL][j] == orig[j]
    {
      assert before[j] == before[line..][j - line];
    }
  }

  /** `after` is `before` with some of its '\n' characters overwritten with
      NUL, and nothing else changed: the only writes the scan makes to its
      buffer. */
  predicate NewlinesCut(before: string, after: string)
  {
    && |before| == |after|
    && forall i :: 0 <= i < |before| ==> after[i] == before[i] || (before[i] == NEWLINE && after[i] == NUL)
  }

  /** `after` is `before` with the '\n' at index `i`, and only that one,
      overwritten with NUL. */
  predicate CutAt(before: string, after: string, i: nat)
  {
    i < |before| && before[i] == NEWLINE && after == before[i := NUL]
  }

  /** Overwriting one '\n' with NUL is such a cut. */
  lemma CutOneNewline(s: string, t: string, i: nat)
    requires CutAt(s, t, i)
    ensures NewlinesCut(s, t)
  {
  }

  /** Two cuts in a row are one cut: a NUL written over a '\n' is never
      written again, since a NUL is not a '\n'. */
  lemma NewlinesCutTrans(a: string, b: string, c: string)
    requires NewlinesCut(a, b) && NewlinesCut(b, c)
    ensures NewlinesCut(a, c)
  {
    forall i | 0 <= i < |a|
      ensures c[i] == a[i] || (a[i] == NEWLINE && c[i] == NUL)
    {
      if b[i] != a[i] {
        assert b[i] == NUL != NEWLINE;
      }
    }
  }

  /** The first step of one round of the line scan: the line that starts at
      `line` in the kernel buffer `kbuf`, whose text from `line` on is still
      that of the copied payload `orig`, is looked up for its '\n', which is
      overwritten with NUL so that the line can be read as the C string
      `str` at `line`. */
  method CutLine(kbuf: array<char>, line: nat, ghost orig: string) returns (next: Option<nat>, str: string)
    requires |orig| == kbuf.Length && line < CLen(orig) < |orig|
    requires kbuf[line..] == orig[line..]
    modifies kbuf
    ensures LinePass(orig, line, next, str) && str == kbuf[line..]
    ensures NUL in str && (next.Some? ==> line + next.value < CLen(orig))
    ensures next.Some? ==> kbuf[line + next.value + 1..] == orig[line + next.value + 1..]
    ensures next.None? ==> kbuf[..] == old(kbuf[..])
    ensures next.Some? ==> CutAt(old(kbuf[..]), kbuf[..], line + next.value)
    ensures kbuf[CLen(orig)..] == orig[CLen(orig)..]
    ensures NewlinesCut(old(kbuf[..]), kbuf[..]) && kbuf[..line] == old(kbuf[..line])
  {
    ghost var before := kbuf[..];
    next := StrChr(kbuf[line..], NEWLINE);
    if next.Some? {
      var i := line + next.value;
      assert before[i] == NEWLINE by {
        StrChrSpec(before[line..], NEWLINE);
      }
      kbuf[i] := NUL;
      ghost var cut := kbuf[..];
      assert cut == before[i := NUL];
      CutOneNewline(before, cut, i);
      CutLeavesTail(orig, before, line, i);
      assert cut[i + 1..] == orig[i + 1..];
      assert kbuf[i + 1..] == cut[i + 1..];
      assert kbuf[line..] == cut[line..] == before[line..][next.value := NUL];
    }
    str := kbuf[line..];
    LineStep(orig, line, next, str);
  }

  /** One round of the line scan, on the line that starts at `line` in the
      kernel buffer `kbuf`, whose text from `line` on is still that of the
      copied payload `orig`. The result is Some(outcome) when the scan ends
      with this line (it denies, or it is the last one), and otherwise None
      with `start`, where the next line begins. Either way the verdict on the
      lines left to scan is kept. */
  method ScanLine(kbuf: array<char>, line: nat, ghost orig: string) returns (result: Option<Outcome>, start: nat)
    requires |orig| == kbuf.Length && line < CLen(orig) < |orig|
    requires kbuf[line..] == orig[line..]
    modifies kbuf
    ensures result.Some? ==> result.value == Verdict(Lines(CString(orig)[line..]), WholeLine)
    ensures result.None? ==> line < start <= CLen(orig) && kbuf[start..] == orig[start..]
    ensures result.None? ==> Verdict(Lines(CString(orig)[start..]), WholeLine) == Verdict(Lines(CString(orig)[line..]), WholeLine)
    ensures NewlinesCut(old(kbuf[..]), kbuf[..]) && kbuf[..line] == old(kbuf[..line])
    ensures kbuf[CLen(orig)..] == orig[CLen(orig)..]
    ensures result.None? ==> CutAt(old(kbuf[..]), kbuf[..], start - 1)
  {
    var next, str := CutLine(kbuf, line, orig);
    var colon := StrChr(str, COLON);
    if colon.Some? {
      var len := colon.value;
      if len > 0 && !IsAllowedUser(str) {
        LineStepDeny(orig, line, next, str);
        return Some(Deny(str[..len])), line;
      }
    }
    if next.None? {
      LineStepLast(orig, line, next, str);
      return Some(Forward), line;
    }
    // the next line starts right after the '\n'
    start := line + next.value + 1;
    assert kbuf[start..] == orig[start..];
    LineStepNext(orig, line, next, str, start);
    result := None;
  }

  /** The line scan of `lms_vfs_write`, run on the kernel buffer `kbuf`
      that holds the copied payload and its terminating NUL. It goes line by
      line and stops at the first line that denies, or at the terminating
      NUL. Its only writes to `kbuf` turn '\n' characters of the scanned
      text into NUL. */
  method ScanKernelBuffer(kbuf: array<char>) returns (o: Outcome)
    requires NUL in kbuf[..]
    modifies kbuf
    ensures o == Verdict(Lines(CString(old(kbuf[..]))), WholeLine)
    ensures NewlinesCut(old(kbuf[..]), kbuf[..])
    ensures kbuf[CLen(old(kbuf[..]))..] == old(kbuf[..])[CLen(old(kbuf[..]))..]
  {
    ghost var orig := kbuf[..];
    ghost var want := Verdict(Lines(CString(orig)), WholeLine);
    assert CString(orig)[0..] == CString(orig);
    assert CLen(orig) < |orig| by {
      CLenSpec(orig);
    }
    // `line` is never null: it starts at `kbuf` and moves just past a '\n'
    var line := 0;
    while kbuf[line] != NUL
      invariant line <= CLen(orig) < |orig| == kbuf.Length
      invariant kbuf[line..] == orig[line..]
      invariant Verdict(Lines(CString(orig)[line..]), WholeLine) == want
      invariant NewlinesCut(orig, kbuf[..])
      decreases CLen(orig) - line
    {
      assert line < CLen(orig) by {
        CLenStops(orig);
      }
      ghost var pass := kbuf[..];
      var result, start := ScanLine(kbuf, line, orig);
      NewlinesCutTrans(orig, pass, kbuf[..]);
      if result.Some? {
        return result.value;
      }
      line := start;
    }
    assert line == CLen(orig) by {
      CLenSpec(orig);
    }
    return Forward;
  }

  /** `lms_vfs_write`. The real `vfs_write` is not called here: `realRet`
      stands for what it returns, and the hook returns that unchanged on
      Forward. `copyOk` stands for `kmalloc` returning a buffer and
      `copy_from_user` copying all `count` characters. The caller's `buf` is
      only read (there is no modifies clause): newlines are overwritten in the
      private copy `kbuf`. */
  method VfsWrite(target: Target, copyOk: bool, buf: array<char>, realRet: int) returns (ret: int, o: Outcome)
    ensures o == Decide(target, copyOk, buf[..])
    ensures ret == if o == Forward then realRet else -EPERM
  {
    if IsPasswd(target) {
      if copyOk {
        var count := buf.Length;
        var kbuf := new char[count + 1];
        forall i | 0 <= i < count {
          kbuf[i] := buf[i];
        }
        kbuf[count] := NUL;
        assert kbuf[..] == buf[..] + [NUL];
        o := ScanKernelBuffer(kbuf);
        if o.Deny? {
          return -EPERM, o;
        }
      }
    }
    return realRet, Forward;
  }
}
