/**
 * What the write filter guarantees, stated over `Decide` (the module as
 * written) and `DecideIntended` (the module as its comments describe it),
 * and proved from their definitions.
 */
module FilterProperties {
  import opened CStrings
  import opened PasswdFilter

  /** The inverse of `Lines`: the lines put back together, one '\n' between
      each two. */
  function JoinLines(lines: seq<string>): string
  {
    if lines == [] then []
    else if |lines| == 1 then lines[0]
    else lines[0] + [NEWLINE] + JoinLines(lines[1..])
  }

  /** No line the scan visits holds a '\n'. */
  lemma {:induction false} LinesHaveNoNewline(text: string)
    ensures forall i :: 0 <= i < |Lines(text)| ==> NEWLINE !in Lines(text)[i]
    decreases |text|
  {
    if text != [] {
      LinesStep(text);
      FindSpec(text, NEWLINE);
      match Find(text, NEWLINE)
      case None =>
      case Some(k) =>
        var rest := text[k + 1..];
        LinesHaveNoNewline(rest);
        forall i | 1 <= i < |Lines(text)| ensures NEWLINE !in Lines(text)[i] {
          assert Lines(text)[i] == Lines(rest)[i - 1];
        }
    }
  }

  /** The final '\n' of a text, if it ends in one: the one character `Lines`
      does not keep. */
  function FinalNewline(text: string): string
  {
    if text != [] && text[|text| - 1] == NEWLINE then [NEWLINE] else []
  }

  /** Concatenation is associative. */
  lemma AppendAssoc(a: string, b: string, c: string)
    ensures (a + b) + c == a + (b + c)
  {
  }

  /** Joining a line to the front of at least one more puts a '\n' between. */
  lemma JoinCons(line: string, lines: seq<string>)
    requires lines != []
    ensures JoinLines([line] + lines) == line + [NEWLINE] + JoinLines(lines)
  {
    var all := [line] + lines;
    assert all[0] == line && all[1..] == lines;
  }

  /** The round trip for a text with no '\n': one line, the text itself. */
  lemma RoundTripLast(text: string)
    requires text != [] && Find(text, NEWLINE).None?
    ensures JoinLines(Lines(text)) + FinalNewline(text) == text
  {
    LinesStep(text);
    FindSpec(text, NEWLINE);
    assert text[|text| - 1] != NEWLINE;
  }

  /** The round trip for a text whose first '\n' is at `k`, given the round
      trip for what follows that '\n'. */
  lemma RoundTripStep(text: string, k: nat)
    requires Find(text, NEWLINE) == Some(k)
    requires JoinLines(Lines(text[k + 1..])) + FinalNewline(text[k + 1..]) == text[k + 1..]
    ensures JoinLines(Lines(text)) + FinalNewline(text) == text
  {
    var first, rest := text[..k], text[k + 1..];
    assert text == first + [NEWLINE] + rest by {
      FindSpec(text, NEWLINE);
      SplitAt(text, k);
    }
    if rest == [] {
      assert Lines(text) == [first] by {
        LinesStep(text);
      }
      assert FinalNewline(text) == [NEWLINE] by {
        assert text == first + [NEWLINE];
      }
    } else {
      var lines := Lines(rest);
      var fin := FinalNewline(text);
      assert FinalNewline(rest) == fin by {
        assert text[|text| - 1] == rest[|rest| - 1];
      }
      calc {
        JoinLines(Lines(text)) + fin;
        == { LinesStep(text); LinesStep(rest); JoinCons(first, lines); }
        (first + [NEWLINE] + JoinLines(lines)) + fin;
        == { AppendAssoc(first + [NEWLINE], JoinLines(lines), fin); }
        (first + [NEWLINE]) + (JoinLines(lines) + fin);
        == // the round trip for what follows the first '\n'
        (first + [NEWLINE]) + rest;
      }
    }
  }

  /** Splitting a text into the lines the scan visits loses nothing but a
      final '\n': joining the lines back gives the text. */
  lemma {:induction false} LinesRoundTrip(text: string)
    ensures JoinLines(Lines(text)) + FinalNewline(text) == text
    decreases |text|
  {
    if text != [] {
      match Find(text, NEWLINE)
      case None =>
        RoundTripLast(text);
      case Some(k) =>
        LinesRoundTrip(text[k + 1..]);
        RoundTripStep(text, k);
    }
  }

  /** Deny wins: the verdict on a sequence of lines is a denial exactly when
      one of the lines denies. */
  lemma {:induction false} DenyWins(lines: seq<string>, policy: Policy)
    ensures Verdict(lines, policy).Deny? <==> exists i :: 0 <= i < |lines| && Denies(lines[i], policy)
  {
    if lines != [] && !Denies(lines[0], policy) {
      DenyWins(lines[1..], policy);
      if exists i :: 0 <= i < |lines| && Denies(lines[i], policy) {
        var i :| 0 <= i < |lines| && Denies(lines[i], policy);
        assert lines[1..][i - 1] == lines[i];
      }
      if Verdict(lines, policy).Deny? {
        var i :| 0 <= i < |lines| - 1 && Denies(lines[1..][i], policy);
        assert lines[1 + i] == lines[1..][i];
      }
    }
  }

  /** The denial names the first line that denies: every line before it is
      let through, and the name is that line's identity field. */
  lemma {:induction false} DenialNamesFirst(lines: seq<string>, policy: Policy)
    requires Verdict(lines, policy).Deny?
    ensures exists i :: 0 <= i < |lines| && Denies(lines[i], policy)
                        && Verdict(lines, policy).name == Identity(lines[i])
                        && forall j :: 0 <= j < i ==> !Denies(lines[j], policy)
  {
    if !Denies(lines[0], policy) {
      DenialNamesFirst(lines[1..], policy);
      var i :| 0 <= i < |lines| - 1 && Denies(lines[1..][i], policy)
               && Verdict(lines[1..], policy).name == Identity(lines[1..][i])
               && forall j :: 0 <= j < i ==> !Denies(lines[1..][j], policy);
      assert lines[1 + i] == lines[1..][i];
      forall j | 1 <= j < 1 + i ensures !Denies(lines[j], policy) {
        assert lines[j] == lines[1..][j - 1];
      }
    }
  }

  /** The line test as written: `is_allowed_user` sees the whole line, and a
      line with a ':' in it can never be "operator", so a line denies exactly
      when it has a ':' and does not start with one. */
  lemma DeniesAsWritten(line: string)
    ensures Denies(line, WholeLine) <==> COLON in line && line[0] != COLON
  {
    FindSpec(line, COLON);
    if line == ALLOWED_USER {
      assert forall j :: 0 <= j < |line| ==> line[j] != COLON;
    }
  }

  /** The line test the comments describe: a line denies exactly when it has
      a ':', does not start with one, and the text before its first ':' is
      not "operator". */
  lemma DeniesIntended(line: string)
    ensures Denies(line, IdentityField) <==> COLON in line && line[0] != COLON && Identity(line) != ALLOWED_USER
  {
    FindSpec(line, COLON);
  }

  /** The identity field of a line with a ':' is the text before its first
      ':', and holds no ':' itself. */
  lemma IdentitySplit(line: string)
    requires COLON in line
    ensures COLON !in Identity(line)
    ensures line == Identity(line) + [COLON] + line[|Identity(line)| + 1..]
  {
    FindSpec(line, COLON);
  }

  /** `lms_vfs_write` as written refuses a write exactly when it targets
      "passwd", the payload reached the kernel, and some scanned line has a
      ':' that is not its first character; every other write is forwarded. */
  lemma PasswdDecision(target: Target, copyOk: bool, payload: string)
    ensures Decide(target, copyOk, payload).Deny? <==>
              && IsPasswd(target) && copyOk
              && exists i :: 0 <= i < |Scanned(payload)| && COLON in Scanned(payload)[i] && Scanned(payload)[i][0] != COLON
  {
    var lines := Scanned(payload);
    DenyWins(lines, WholeLine);
    forall i | 0 <= i < |lines| ensures Denies(lines[i], WholeLine) <==> COLON in lines[i] && lines[i][0] != COLON {
      DeniesAsWritten(lines[i]);
    }
  }

  /** The intended filter refuses a write exactly when it targets "passwd",
      the payload reached the kernel, and some scanned line is a record
      whose identity field is neither empty nor "operator". */
  lemma PasswdDecisionIntended(target: Target, copyOk: bool, payload: string)
    ensures DecideIntended(target, copyOk, payload).Deny? <==>
              && IsPasswd(target) && copyOk
              && exists i :: 0 <= i < |Scanned(payload)| && COLON in Scanned(payload)[i] && Scanned(payload)[i][0] != COLON
                             && Identity(Scanned(payload)[i]) != ALLOWED_USER
  {
    var lines := Scanned(payload);
    DenyWins(lines, IdentityField);
    forall i | 0 <= i < |lines|
      ensures Denies(lines[i], IdentityField) <==> COLON in lines[i] && lines[i][0] != COLON && Identity(lines[i]) != ALLOWED_USER
    {
      DeniesIntended(lines[i]);
    }
  }

  /** A write to "passwd" of a single record for "operator". */
  function OperatorRecord(rest: string): string
  {
    ALLOWED_USER + [COLON] + rest
  }

  /** "operator" holds none of the characters the scan looks for. */
  lemma AllowedUserPlain()
    ensures NUL !in ALLOWED_USER && NEWLINE !in ALLOWED_USER && COLON !in ALLOWED_USER
  {
  }

  /** Facts about a one-line "operator" record: it is the only line the scan
      visits, and its first ':' follows "operator". */
  lemma OperatorRecordScan(rest: string)
    requires NUL !in rest && NEWLINE !in rest
    ensures Scanned(OperatorRecord(rest)) == [OperatorRecord(rest)]
    ensures Find(OperatorRecord(rest), COLON) == Some(|ALLOWED_USER|)
  {
    var p := OperatorRecord(rest);
    assert NUL !in p && NEWLINE !in p by {
      AllowedUserPlain();
    }
    assert CString(p + [NUL]) == p by {
      CStringTerminated(p, []);
      assert p + [NUL] + [] == p + [NUL];
    }
    assert Lines(p) == [p] by {
      FindSpec(p, NEWLINE);
      LinesStep(p);
    }
    OperatorRecordColon(rest);
  }

  /** The first ':' of an "operator" record is the one right after the name. */
  lemma OperatorRecordColon(rest: string)
    ensures Find(OperatorRecord(rest), COLON) == Some(|ALLOWED_USER|)
  {
    AllowedUserPlain();
    FindSpec(ALLOWED_USER, COLON);
    FindAppend(ALLOWED_USER, [COLON] + rest, COLON);
    assert ALLOWED_USER + ([COLON] + rest) == OperatorRecord(rest);
  }

  /** The target test accepts the name "passwd". */
  lemma PasswdIsPasswd()
    ensures IsPasswd(Named(PASSWD))
  {
    IsPasswdSpec(Named(PASSWD));
    CStringTerminated(PASSWD, []);
    assert PASSWD + [NUL] + [] == PASSWD + [NUL];
  }

  /** As written, the filter refuses the very record it exists to allow: an
      "operator" line reaches `is_allowed_user` whole, ':' and all. */
  lemma OperatorRecordDeniedAsWritten(rest: string)
    requires NUL !in rest && NEWLINE !in rest
    ensures Decide(Named(PASSWD), true, OperatorRecord(rest)) == Deny(ALLOWED_USER)
  {
    OperatorRecordScan(rest);
    PasswdIsPasswd();
    var p := OperatorRecord(rest);
    assert p[..|ALLOWED_USER|] == ALLOWED_USER;
    assert p != ALLOWED_USER;
    var only: seq<string> := [p];
    assert only[1..] == [];
  }

  /** With the identity field compared, the "operator" record is forwarded. */
  lemma OperatorRecordForwardedIntended(rest: string)
    requires NUL !in rest && NEWLINE !in rest
    ensures DecideIntended(Named(PASSWD), true, OperatorRecord(rest)) == Forward
  {
    OperatorRecordScan(rest);
    PasswdIsPasswd();
    var p := OperatorRecord(rest);
    assert p[..|ALLOWED_USER|] == ALLOWED_USER;
    var only: seq<string> := [p];
    assert only[1..] == [];
    assert Verdict(only[1..], IdentityField) == Forward;
  }

  /** A text without '\n' is one line, with or without a '\n' appended. */
  lemma LinesAppendNewlineLast(text: string)
    requires text != [] && Find(text, NEWLINE).None?
    ensures Lines(text + [NEWLINE]) == [text] == Lines(text) && text[|text| - 1] != NEWLINE
  {
    var t := text + [NEWLINE];
    FindAppend(text, [NEWLINE], NEWLINE);
    assert Find(t, NEWLINE) == Some(|text|);
    assert t[..|text|] == text && t[|text| + 1..] == [];
    FindSpec(text, NEWLINE);
  }

  /** In a text with a '\n' of its own, the appended '\n' only moves to the
      rest of the lines. */
  lemma LinesAppendNewlineFirst(text: string, k: nat)
    requires Find(text, NEWLINE) == Some(k)
    ensures Lines(text + [NEWLINE]) == [text[..k]] + Lines(text[k + 1..] + [NEWLINE])
  {
    var t := text + [NEWLINE];
    assert Find(t, NEWLINE) == Some(k) by {
      FindAppend(text, [NEWLINE], NEWLINE);
    }
    assert t[..k] == text[..k];
    assert t[k + 1..] == text[k + 1..] + [NEWLINE];
  }

  /** Appending '\n' to a text adds an empty last line exactly when the text
      is empty or already ends in '\n'; otherwise the lines are unchanged. */
  lemma {:induction false} LinesAppendNewline(text: string)
    ensures Lines(text + [NEWLINE]) == if text == [] || text[|text| - 1] == NEWLINE then Lines(text) + [[]] else Lines(text)
    decreases |text|
  {
    if text == [] {
      var t := text + [NEWLINE];
      LinesStep(t);
      assert t[1..] == [];
    } else {
      match Find(text, NEWLINE)
      case None =>
        LinesAppendNewlineLast(text);
      case Some(k) =>
        var rest := text[k + 1..];
        var ends := rest == [] || rest[|rest| - 1] == NEWLINE;
        assert ends <==> text[|text| - 1] == NEWLINE by {
          FindSpec(text, NEWLINE);
          if rest != [] {
            assert rest[|rest| - 1] == text[|text| - 1];
          }
        }
        assert Lines(text + [NEWLINE]) == [text[..k]] + Lines(rest + [NEWLINE]) by {
          LinesAppendNewlineFirst(text, k);
        }
        assert Lines(text) == [text[..k]] + Lines(rest) by {
          LinesStep(text);
        }
        LinesAppendNewline(rest);
        if ends {
          assert [text[..k]] + (Lines(rest) + [[]]) == ([text[..k]] + Lines(rest)) + [[]];
        }
    }
  }

  /** An empty last line never changes the verdict: it has no ':'. */
  lemma {:induction false} VerdictEmptyLast(lines: seq<string>, policy: Policy)
    ensures Verdict(lines + [[]], policy) == Verdict(lines, policy)
  {
    var all := lines + [[]];
    if lines == [] {
      assert all[1..] == [];
    } else {
      assert all[0] == lines[0] && all[1..] == lines[1..] + [[]];
      VerdictEmptyLast(lines[1..], policy);
    }
  }

  /** A final '\n' does not change what the filter decides: the last line is
      checked whether or not a '\n' ends it. */
  lemma TrailingNewlineIrrelevant(target: Target, copyOk: bool, payload: string)
    ensures Decide(target, copyOk, payload + [NEWLINE]) == Decide(target, copyOk, payload)
    ensures DecideIntended(target, copyOk, payload + [NEWLINE]) == DecideIntended(target, copyOk, payload)
  {
    var longer := payload + [NEWLINE];
    if NUL in payload {
      CStringExtend(payload, [NEWLINE, NUL]);
      CStringExtend(payload, [NUL]);
      assert longer + [NUL] == payload + [NEWLINE, NUL];
    } else {
      CStringTerminated(payload, []);
      CStringTerminated(longer, []);
      assert payload + [NUL] + [] == payload + [NUL];
      assert longer + [NUL] + [] == longer + [NUL];
      LinesAppendNewline(payload);
      VerdictEmptyLast(Lines(payload), WholeLine);
      VerdictEmptyLast(Lines(payload), IdentityField);
    }
  }

  /** Nothing after a NUL in the payload is inspected: the filter decides on
      the text before the first NUL alone. */
  lemma NulHidesRest(target: Target, copyOk: bool, payload: string, hidden: string)
    ensures Decide(target, copyOk, payload + [NUL] + hidden) == Decide(target, copyOk, payload)
    ensures DecideIntended(target, copyOk, payload + [NUL] + hidden) == DecideIntended(target, copyOk, payload)
  {
    CStringExtend(payload + [NUL], hidden + [NUL]);
    assert payload + [NUL] + hidden + [NUL] == (payload + [NUL]) + (hidden + [NUL]);
  }
}
