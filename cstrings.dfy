/**
 * The C library string routines the write filter relies on, modelled on
 * character sequences. A C string is read from the start of a buffer up to
 * (not including) its first NUL character; `strlen`, `strchr` and `strcmp`
 * never look past that NUL.
 *
 * The functions carry only the bounds their callers need; what each one
 * computes is stated by the lemma that follows it.
 */
module CStrings {

  datatype Option<T> = None | Some(value: T)

  const NUL: char := '\0'

  /** `strlen`: the index of the first NUL in `s`, or `|s|` when it holds none. */
  function CLen(s: string): (n: nat)
    ensures n <= |s|
  {
    if s == [] || s[0] == NUL then 0 else 1 + CLen(s[1..])
  }

  /** CLen stops at a NUL, unless it ran off the end of the buffer. */
  lemma {:induction false} CLenStops(s: string)
    ensures CLen(s) < |s| ==> s[CLen(s)] == NUL
  {
    if s != [] && s[0] != NUL {
      CLenStops(s[1..]);
      if CLen(s) < |s| {
        assert s[CLen(s)] == s[1..][CLen(s[1..])];
      }
    }
  }

  /** CLen stops at the first NUL: no NUL comes before it, and it is at a NUL
      unless it ran off the end of the buffer. */
  lemma {:induction false} CLenSpec(s: string)
    ensures forall j :: 0 <= j < CLen(s) ==> s[j] != NUL
    ensures CLen(s) < |s| ==> s[CLen(s)] == NUL
  {
    CLenStops(s);
    if s != [] && s[0] != NUL {
      CLenSpec(s[1..]);
      forall j | 1 <= j < CLen(s) ensures s[j] != NUL {
        assert s[j] == s[1..][j - 1];
      }
    }
  }

  /** The two properties of CLenSpec determine CLen. */
  lemma CLenUnique(s: string, n: nat)
    requires n <= |s|
    requires forall j :: 0 <= j < n ==> s[j] != NUL
    requires n < |s| ==> s[n] == NUL
    ensures CLen(s) == n
  {
    CLenSpec(s);
  }

  /** The C string stored at the start of `s`. */
  function CString(s: string): string
  {
    s[..CLen(s)]
  }

  /** Index of the first occurrence of `c` in `s`, if any. */
  function Find(s: string, c: char): (r: Option<nat>)
    ensures r.Some? ==> r.value < |s|
  {
    if s == [] then None
    else if s[0] == c then Some(0)
    else match Find(s[1..], c)
      case None => None
      case Some(k) => Some(k + 1)
  }

  /** Find returns the first `c`, and None exactly when there is no `c`. */
  lemma {:induction false} FindSpec(s: string, c: char)
    ensures Find(s, c).None? <==> forall j :: 0 <= j < |s| ==> s[j] != c
    ensures Find(s, c).Some? ==> s[Find(s, c).value] == c && forall j :: 0 <= j < Find(s, c).value ==> s[j] != c
  {
    if s != [] && s[0] != c {
      FindSpec(s[1..], c);
      assert forall j :: 1 <= j < |s| ==> s[j] == s[1..][j - 1];
    }
  }

  /** A sequence is the part before an index, the element there, and the rest. */
  lemma SplitAt(s: string, k: nat)
    requires k < |s|
    ensures s == s[..k] + [s[k]] + s[k + 1..]
  {
    assert s[..k] + [s[k]] == s[..k + 1];
  }

  /** Searching a concatenation finds the first `c` of the left part, or else
      the first `c` of the right part, shifted past the left part. */
  lemma {:induction false} FindAppend(s: string, t: string, c: char)
    ensures Find(s + t, c) == match Find(s, c)
                              case Some(k) => Some(k)
                              case None => match Find(t, c)
                                case None => None
                                case Some(k) => Some(|s| + k)
  {
    if s != [] {
      assert (s + t)[0] == s[0] && (s + t)[1..] == s[1..] + t;
      FindAppend(s[1..], t, c);
    } else {
      assert s + t == t;
    }
  }

  /** `strchr(s, c)` for a character `c` other than NUL, as an offset from the
      start of `s`: the first `c` that comes before the terminating NUL. */
  function StrChr(s: string, c: char): (r: Option<nat>)
    requires c != NUL
  {
    Find(CString(s), c)
  }

  /** What `strchr` promises: a found `c` is in `s` with neither `c` nor NUL
      before it; when nothing is found, no `c` comes before the first NUL. */
  lemma StrChrSpec(s: string, c: char)
    requires c != NUL
    ensures StrChr(s, c).Some? ==> StrChr(s, c).value < |s| && s[StrChr(s, c).value] == c
    ensures StrChr(s, c).Some? ==> forall j :: 0 <= j < StrChr(s, c).value ==> s[j] != c && s[j] != NUL
    ensures StrChr(s, c).None? ==> forall j :: 0 <= j < CLen(s) ==> s[j] != c
  {
    var t := CString(s);
    CLenSpec(s);
    FindSpec(t, c);
    assert forall j :: 0 <= j < |t| ==> t[j] == s[j];
  }

  /** `strcmp(a, b) == 0`: the two C strings are compared character by
      character until they differ or both end. */
  function StrEq(a: string, b: string): bool
    requires NUL in a && NUL in b
  {
    if a[0] != b[0] then false
    else if a[0] == NUL then true
    else
      assert a[1..][CLen(a) - 1] == NUL && b[1..][CLen(b) - 1] == NUL by {
        CLenSpec(a);
        CLenSpec(b);
      }
      StrEq(a[1..], b[1..])
  }

  /** `strcmp` reports equality exactly when the two C strings are equal. */
  lemma {:induction false} StrEqSpec(a: string, b: string)
    requires NUL in a && NUL in b
    ensures StrEq(a, b) <==> CString(a) == CString(b)
  {
    if a[0] != b[0] {
      CLenSpec(a);
      CLenSpec(b);
      if CLen(a) > 0 && CLen(b) > 0 {
        assert CString(a)[0] != CString(b)[0];
      } else {
        assert |CString(a)| != |CString(b)|;
      }
    } else if a[0] != NUL {
      var i :| 0 <= i < |a| && a[i] == NUL;
      var j :| 0 <= j < |b| && b[j] == NUL;
      assert a[1..][i - 1] == NUL && b[1..][j - 1] == NUL;
      StrEqSpec(a[1..], b[1..]);
      CStringSuffix(a, 1);
      CStringSuffix(b, 1);
      assert CString(a) == [a[0]] + CString(a[1..]);
      assert CString(b) == [b[0]] + CString(b[1..]);
    }
  }

  /** Once the buffer holds a NUL, what follows the buffer is never read. */
  lemma CStringExtend(s: string, t: string)
    requires NUL in s
    ensures CLen(s + t) == CLen(s) && CString(s + t) == CString(s)
  {
    CLenSpec(s);
    var n := CLen(s);
    CLenUnique(s + t, n);
    assert (s + t)[..n] == s[..n];
  }

  /** A string without NUL followed by a terminator reads back as itself. */
  lemma CStringTerminated(p: string, q: string)
    requires NUL !in p
    ensures CLen(p + [NUL] + q) == |p| && CString(p + [NUL] + q) == p
  {
    CLenUnique(p + [NUL] + q, |p|);
    assert (p + [NUL] + q)[..|p|] == p;
  }

  /** Overwriting a character of a C string with NUL cuts the string there. */
  lemma CStringCut(s: string, k: nat)
    requires k < CLen(s)
    ensures CLen(s[k := NUL]) == k && CString(s[k := NUL]) == CString(s)[..k]
  {
    CLenSpec(s);
    CLenUnique(s[k := NUL], k);
  }

  /** Reading a C string from an offset inside it gives the rest of it. */
  lemma CStringSuffix(s: string, i: nat)
    requires i <= CLen(s)
    ensures CLen(s[i..]) == CLen(s) - i && CString(s[i..]) == CString(s)[i..]
  {
    CLenSpec(s);
    CLenUnique(s[i..], CLen(s) - i);
  }
}
