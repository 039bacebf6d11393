/**
 Field rules shared by the sign-up form and the admin user form: the e-mail pattern
 `^[^@\s]+@[^@\s]+\.[^@\s]+$`, and the handle normalisation that prefixes a
 missing `@`.
 */
module FormRules {
  import opened Text

  // ----- the e-mail pattern -----

  /** A run matched by `[^@\s]+` (apart from being non-empty). */
  predicate Plain(p: string) {
    forall k :: 0 <= k < |p| ==> p[k] != '@' && !IsSpace(p[k])
  }

  /**
   The pattern matches `s` with its `@` at index `i` and its `\.` at index `j`:
   `s[..i]`, `s[i+1..j]` and `s[j+1..]` are the three non-empty runs.
   */
  predicate EmailSplit(s: string, i: int, j: int) {
    && 0 < i && i + 1 < j && j + 1 < |s|
    && s[i] == '@' && s[j] == '.'
    && Plain(s[..i]) && Plain(s[i + 1..j]) && Plain(s[j + 1..])
  }

  /** What the regular expression accepts, stated as the existence of a split. */
  ghost predicate MatchesEmailPattern(s: string) {
    exists i, j :: EmailSplit(s, i, j)
  }

  /** States of a left-to-right scan recognising the pattern. */
  datatype EmailScan = Start | Local | AfterAt | Domain | DomainDot | Done | Reject

  function EmailStep(st: EmailScan, c: char): EmailScan {
    if c == '@' then (if st == Local then AfterAt else Reject)
    else if IsSpace(c) then Reject
    else if c == '.' then
      match st
      case Start => Local
      case Local => Local
      case AfterAt => Domain
      case Domain => DomainDot
      case DomainDot => Done
      case Done => Done
      case Reject => Reject
    else
      match st
      case Start => Local
      case Local => Local
      case AfterAt => Domain
      case Domain => Domain
      case DomainDot => Done
      case Done => Done
      case Reject => Reject
  }

  function EmailScanOf(s: string): EmailScan {
    if |s| == 0 then Start else EmailStep(EmailScanOf(s[..|s| - 1]), s[|s| - 1])
  }

  /** The prefix `p` is a valid address up to an `@` at `i` and a non-empty domain run after it. */
  predicate DomainFrom(p: string, i: int) {
    0 < i < |p| - 1 && p[i] == '@' && Plain(p[..i]) && Plain(p[i + 1..])
  }

  /** What each scan state says about the prefix read so far. */
  ghost predicate ScanMeans(st: EmailScan, p: string) {
    match st
    case Start => |p| == 0
    case Local => |p| > 0 && Plain(p)
    case AfterAt => |p| >= 2 && p[|p| - 1] == '@' && Plain(p[..|p| - 1])
    case Domain => exists i :: DomainFrom(p, i)
    case DomainDot => exists i :: DomainFrom(p, i) && i + 2 <= |p| - 1 && p[|p| - 1] == '.'
    case Done => MatchesEmailPattern(p)
    case Reject => true
  }

  lemma PlainSnoc(p: string, c: char)
    requires Plain(p) && c != '@' && !IsSpace(c)
    ensures Plain(p + [c])
  {
    assert forall k :: 0 <= k < |p| ==> (p + [c])[k] == p[k];
  }

  lemma {:induction false} StepSound(st: EmailScan, p: string, c: char)
    requires ScanMeans(st, p)
    ensures ScanMeans(EmailStep(st, c), p + [c])
  {
    var q := p + [c];
    assert q[..|p|] == p;
    if c != '@' && !IsSpace(c) {
      match st
      case Start =>
      case Local =>
        PlainSnoc(p, c);
      case AfterAt =>
        assert DomainFrom(q, |p| - 1);
      case Domain =>
        var i :| DomainFrom(p, i);
        assert q[i + 1..] == p[i + 1..] + [c];
        PlainSnoc(p[i + 1..], c);
        assert q[..i] == p[..i];
        assert DomainFrom(q, i);
      case DomainDot =>
        var i :| DomainFrom(p, i) && i + 2 <= |p| - 1 && p[|p| - 1] == '.';
        var j := |p| - 1;
        assert q[..i] == p[..i];
        assert q[i + 1..j] == p[i + 1..][..j - i - 1];
        assert q[j + 1..] == [c];
        assert EmailSplit(q, i, j);
      case Done =>
        var i, j :| EmailSplit(p, i, j);
        assert q[..i] == p[..i];
        assert q[i + 1..j] == p[i + 1..j];
        assert q[j + 1..] == p[j + 1..] + [c];
        PlainSnoc(p[j + 1..], c);
        assert EmailSplit(q, i, j);
      case Reject =>
    } else if c == '@' && st == Local {
      assert q[..|q| - 1] == p;
    }
  }

  lemma {:induction false} ScanSound(s: string)
    ensures ScanMeans(EmailScanOf(s), s)
  {
    if |s| > 0 {
      ScanSound(s[..|s| - 1]);
      StepSound(EmailScanOf(s[..|s| - 1]), s[..|s| - 1], s[|s| - 1]);
      assert s[..|s| - 1] + [s[|s| - 1]] == s;
    }
  }

  lemma {:induction false} ScanLocal(s: string, k: nat)
    requires 0 < k <= |s| && Plain(s[..k])
    ensures EmailScanOf(s[..k]) == Local
  {
    assert s[..k][..k - 1] == s[..k - 1];
    assert s[..k][k - 1] == s[k - 1];
    if k > 1 {
      assert Plain(s[..k - 1]) by {
        assert forall m :: 0 <= m < k - 1 ==> s[..k - 1][m] == s[..k][m];
      }
      ScanLocal(s, k - 1);
    }
  }

  lemma {:induction false} ScanDomain(s: string, i: int, j: int, k: nat)
    requires EmailSplit(s, i, j)
    requires i + 2 <= k <= j
    ensures EmailScanOf(s[..k]) in {Domain, DomainDot, Done}
  {
    assert s[..k][..k - 1] == s[..k - 1];
    assert s[..k][k - 1] == s[k - 1];
    assert s[k - 1] == s[i + 1..j][k - 1 - (i + 1)];
    if k == i + 2 {
      ScanLocal(s, i);
      assert s[..i + 1][..i] == s[..i];
      assert s[..i + 1][i] == '@';
    } else {
      ScanDomain(s, i, j, k - 1);
    }
  }

  lemma {:induction false} ScanDone(s: string, i: int, j: int, k: nat)
    requires EmailSplit(s, i, j)
    requires j + 2 <= k <= |s|
    ensures EmailScanOf(s[..k]) == Done
  {
    assert s[..k][..k - 1] == s[..k - 1];
    assert s[..k][k - 1] == s[k - 1];
    assert s[k - 1] == s[j + 1..][k - 1 - (j + 1)];
    if k == j + 2 {
      ScanDomain(s, i, j, j);
      assert s[..j + 1][..j] == s[..j];
      assert s[..j + 1][j] == '.';
    } else {
      ScanDone(s, i, j, k - 1);
    }
  }

  /** The scan accepts exactly the strings the pattern matches. */
  lemma ScanAcceptsPattern(s: string)
    ensures EmailScanOf(s) == Done <==> MatchesEmailPattern(s)
  {
    ScanSound(s);
    if MatchesEmailPattern(s) {
      var i, j :| EmailSplit(s, i, j);
      ScanDone(s, i, j, |s|);
      assert s[..|s|] == s;
    }
  }

  /** `^[^@\s]+@[^@\s]+\.[^@\s]+$` matched against `s` by a single scan. */
  predicate IsValidEmail(s: string) {
    EmailScanOf(s) == Done
  }

  /** The scan accepts exactly what the regular expression matches. */
  lemma IsValidEmailMatchesPattern(s: string)
    ensures IsValidEmail(s) <==> MatchesEmailPattern(s)
  {
    ScanAcceptsPattern(s);
  }

  // ----- the handle -----

  /** Prefixes `@` unless the handle already starts with one. */
  function NormalizeHandle(h: string): (r: string)
    ensures StartsWith(r, "@")
    ensures StartsWith(h, "@") ==> r == h
    ensures !StartsWith(h, "@") ==> r == "@" + h
  {
    if StartsWith(h, "@") then h else "@" + h
  }

  lemma NormalizeHandleIdempotent(h: string)
    ensures NormalizeHandle(NormalizeHandle(h)) == NormalizeHandle(h)
  {
  }

  /** A handle that passed the bare-`@` check is `@` followed by at least one character. */
  lemma NormalizedHandleShape(h: string)
    requires NormalizeHandle(h) != "@"
    ensures |NormalizeHandle(h)| >= 2 && NormalizeHandle(h)[0] == '@'
  {
    var r := NormalizeHandle(h);
    assert r[..1] == "@";
  }

  /** The normalised handle is the bare `@` exactly for the empty handle and for `@` itself. */
  lemma NormalizedHandleBare(h: string)
    ensures NormalizeHandle(h) == "@" <==> h == "" || h == "@"
  {
    if !StartsWith(h, "@") && |h| > 0 {
      assert |NormalizeHandle(h)| == |h| + 1;
    }
  }
}
