/** Names in FAT directory records: `FormatFileNameAndExt` and `FormatDirNameAndExt` of
    kernel/assist.c one way, `GetNameFromRecord` of kernel/base.c the other. */
module FatNames {
  const NUL: char := '\0'

  function Upper(c: char): char {
    if 'a' <= c <= 'z' then (c as int - 32) as char else c
  }

  function Lower(c: char): char {
    if 'A' <= c <= 'Z' then (c as int + 32) as char else c
  }

  function Map(f: char -> char, s: string): (r: string)
    ensures |r| == |s| && forall i :: 0 <= i < |s| ==> r[i] == f(s[i])
  {
    seq(|s|, i requires 0 <= i < |s| => f(s[i]))
  }

  function Spaces(n: nat): (r: string)
    ensures |r| == n && forall i :: 0 <= i < n ==> r[i] == ' '
  {
    seq(n, _ => ' ')
  }

  /** How far up to eight characters the name part goes: to the first dot. */
  function NameEnd(s: string, limit: nat): (i: nat)
    ensures i <= |s| && i <= limit && forall k :: 0 <= k < i ==> s[k] != '.'
    ensures i < |s| && i < limit ==> s[i] == '.'
  {
    if s == "" || limit == 0 || s[0] == '.' then 0 else 1 + NameEnd(s[1..], limit - 1)
  }

  lemma {:induction false} NameEndIs(s: string, limit: nat, i: nat)
    requires i <= |s| && i <= limit && (forall k :: 0 <= k < i ==> s[k] != '.')
    requires i < |s| && i < limit ==> s[i] == '.'
    ensures NameEnd(s, limit) == i
  {
    if i > 0 {
      NameEndIs(s[1..], limit - 1, i - 1);
    }
  }

  function StoredName(s: string): (r: string)
    ensures |r| == 8
  {
    var i := NameEnd(s, 8);
    Map(Upper, s[..i]) + Spaces(8 - i)
  }

  /** The extension's three bytes; a name without a ninth character or a dot leaves a zero
      byte and what stood there before. */
  function StoredExt(s: string, before: string): (r: string)
    requires |before| == 3
    ensures |r| == 3
  {
    var i := NameEnd(s, 8);
    if i == |s| then [NUL] + before[1..] else (Map(Upper, s[i + 1..]) + Spaces(3))[..3]
  }

  /** `FormatFileNameAndExt`, the two copies of `CreateRecord` after it included: of an extension
      the record's three bytes are kept. */
  method FormatFileNameAndExt(s: string, before: string) returns (name: string, ext: string)
    requires |before| == 3
    ensures name == StoredName(s) && ext == StoredExt(s, before)
  {
    name := "";
    var i := 0;
    while i < |s| && i < 8 && s[i] != '.'
      invariant i <= |s| && i <= 8 && |name| == i
      invariant forall k :: 0 <= k < i ==> s[k] != '.' && name[k] == Upper(s[k])
    {
      name := name + [Upper(s[i])];
      i := i + 1;
    }
    NameEndIs(s, 8, i);
    assert name == Map(Upper, s[..i]);
    var j := i;
    while j < 8
      invariant i <= j <= 8 && name == Map(Upper, s[..i]) + Spaces(j - i)
    {
      name := name + [' '];
      j := j + 1;
    }
    ext := [NUL] + before[1..];
    if i < |s| {
      var all := "";
      var k := i + 1;
      while k < |s|
        invariant i + 1 <= k <= |s| && |all| == k - i - 1
        invariant forall x :: 0 <= x < |all| ==> all[x] == Upper(s[i + 1 + x])
      {
        all := all + [Upper(s[k])];
        k := k + 1;
      }
      assert all == Map(Upper, s[i + 1..]);
      ghost var n := |all|;
      while |all| < 3
        invariant n <= |all| && |all| <= n + 3 && all == Map(Upper, s[i + 1..]) + Spaces(|all| - n)
      {
        all := all + [' '];
      }
      assert forall x :: 0 <= x < 3 ==> all[x] == (Map(Upper, s[i + 1..]) + Spaces(3))[x];
      ext := all[..3];
    }
  }

  function StoredDir(s: string): (r: string)
    ensures |r| == 8
  {
    var n := if |s| < 8 then |s| else 8;
    Map(Upper, s[..n]) + Spaces(8 - n)
  }

  /** `FormatDirNameAndExt`: dots are characters like others, and there is no extension. */
  method FormatDirNameAndExt(s: string) returns (name: string, ext: string)
    ensures name == StoredDir(s) && ext == Spaces(3)
    ensures ext == "   "
  {
    name := "";
    var i := 0;
    while i < |s| && i < 8
      invariant i <= |s| && i <= 8 && |name| == i && forall k :: 0 <= k < i ==> name[k] == Upper(s[k])
    {
      name := name + [Upper(s[i])];
      i := i + 1;
    }
    ghost var n := i;
    assert name == Map(Upper, s[..n]);
    while i < 8
      invariant n <= i <= 8 && name == Map(Upper, s[..n]) + Spaces(i - n)
    {
      name := name + [' '];
      i := i + 1;
    }
    ext := "";
    i := 0;
    while i < 3
      invariant i <= 3 && ext == Spaces(i)
    {
      ext := ext + [' '];
      i := i + 1;
    }
  }

  /** The stored characters, in so many words. The name ends at i, at its dot or after eight
      characters; capitals stand for a to z, spaces fill up, and without an extension its bytes
      are a zero and what was there. */
  lemma StoredIs(s: string, before: string, i: nat, k: nat)
    requires |before| == 3 && i <= |s| && i <= 8 && (forall j :: 0 <= j < i ==> s[j] != '.')
    requires i == |s| || i == 8 || s[i] == '.'
    ensures k < 8 ==>
      StoredName(s)[k] == if k >= i then ' ' else if 'a' <= s[k] <= 'z' then (s[k] as int - 32) as char else s[k]
    ensures k < 3 ==>
      StoredExt(s, before)[k] == if i == |s| then if k == 0 then '\0' else before[k]
                                 else if i + 1 + k >= |s| then ' '
                                 else if 'a' <= s[i + 1 + k] <= 'z' then (s[i + 1 + k] as int - 32) as char
                                 else s[i + 1 + k]
  {
    NameEndIs(s, 8, i);
    hide NameEnd;
  }

  /** A directory's: the dot is a character like others. */
  lemma StoredDirIs(s: string, k: nat)
    requires k < 8
    ensures StoredDir(s)[k] == if k >= |s| then ' ' else if 'a' <= s[k] <= 'z' then (s[k] as int - 32) as char else s[k]
  {
  }

  // ---------------------------------------------------------------- back

  function UpToSpace(s: string): (r: string)
    ensures |r| <= |s| && r == s[..|r|] && (forall k :: 0 <= k < |r| ==> r[k] != ' ')
    ensures |r| < |s| ==> s[|r|] == ' '
  {
    if s == "" || s[0] == ' ' then "" else [s[0]] + UpToSpace(s[1..])
  }

  /** Without trailing spaces, nor the dot at point if that is what they leave at the end. */
  function Trimmed(s: string, point: nat): string {
    if s != "" && (s[|s| - 1] == ' ' || (s[|s| - 1] == '.' && |s| - 1 == point))
    then Trimmed(s[..|s| - 1], point)
    else s
  }

  /** A C string ends at its first zero byte. */
  function CString(s: string): string {
    if s == "" || s[0] == NUL then "" else [s[0]] + CString(s[1..])
  }

  function Full(name: string, ext: string): string {
    Map(Lower, UpToSpace(name)) + "." + Map(Lower, ext)
  }

  function NameRead(name: string, ext: string): string {
    CString(Trimmed(Full(name, ext), |UpToSpace(name)|))
  }

  /** Something is left when the spaces are trimmed; for a blank record the code runs off
      the front of its buffer. */
  predicate NotBlank(name: string, ext: string) {
    UpToSpace(name) != "" || exists k :: 0 <= k < |ext| && ext[k] != ' '
  }

  /** `GetNameFromRecord` */
  method GetNameFromRecord(name: string, ext: string) returns (full: string)
    requires |name| == 8 && |ext| == 3 && NotBlank(name, ext)
    ensures full == NameRead(name, ext)
  {
    full := "";
    var i := 0;
    while i < 8 && name[i] != ' '
      invariant i <= 8 && |full| == i
      invariant forall k :: 0 <= k < i ==> name[k] != ' ' && full[k] == Lower(name[k])
    {
      full := full + [Lower(name[i])];
      i := i + 1;
    }
    UpToSpaceIs(name, i);
    assert full == Map(Lower, UpToSpace(name));
    var point := i;
    full := full + ['.'];
    i := 0;
    while i < 3
      invariant i <= 3 && full == Map(Lower, UpToSpace(name)) + "." + Map(Lower, ext[..i])
    {
      full := full + [Lower(ext[i])];
      assert Map(Lower, ext[..i + 1]) == Map(Lower, ext[..i]) + [Lower(ext[i])];
      i := i + 1;
    }
    assert ext[..3] == ext;
    while full != "" && (full[|full| - 1] == ' ' || (full[|full| - 1] == '.' && |full| - 1 == point))
      invariant Trimmed(full, point) == Trimmed(Full(name, ext), point)
      decreases |full|
    {
      full := full[..|full| - 1];
    }
    full := CString(full);
  }

  lemma {:induction false} UpToSpaceIs(s: string, i: nat)
    requires i <= |s| && (forall k :: 0 <= k < i ==> s[k] != ' ') && (i < |s| ==> s[i] == ' ')
    ensures |UpToSpace(s)| == i
  {
    if i > 0 {
      UpToSpaceIs(s[1..], i - 1);
    }
  }

  // ---------------------------------------------------------------- there and back

  predicate NoNul(s: string) {
    forall k :: 0 <= k < |s| ==> s[k] != NUL
  }

  /** A name that survives: up to eight characters without spaces, a dot, one to three more of
      which the last is no space, and no capitals. */
  predicate Plain(s: string) {
    var i := NameEnd(s, 8);
    && i + 1 < |s| <= i + 4 && s[i] == '.' && s[|s| - 1] != ' '
    && (forall k :: 0 <= k < i ==> s[k] != ' ')
    && forall k :: 0 <= k < |s| ==> !('A' <= s[k] <= 'Z')
  }

  predicate Trimmable(s: string, k: nat, point: nat)
    requires k < |s|
  {
    s[k] == ' ' || (s[k] == '.' && k == point)
  }

  lemma {:induction false} TrimmedIs(s: string, point: nat)
    ensures var t := Trimmed(s, point);
            && |t| <= |s| && t == s[..|t|] && (|t| > 0 ==> !Trimmable(s, |t| - 1, point))
            && forall k :: |t| <= k < |s| ==> Trimmable(s, k, point)
    decreases |s|
  {
    if s != "" && Trimmable(s, |s| - 1, point) {
      var r := s[..|s| - 1];
      TrimmedIs(r, point);
      var t := Trimmed(r, point);
      assert forall k :: 0 <= k < |r| ==> Trimmable(s, k, point) == Trimmable(r, k, point);
    }
  }

  lemma {:induction false} CStringWhole(s: string)
    requires NoNul(s)
    ensures CString(s) == s
  {
    if s != "" {
      CStringWhole(s[1..]);
    }
  }

  lemma {:induction false} CStringCut(s: string, n: nat)
    requires n < |s| && s[n] == NUL && NoNul(s[..n])
    ensures CString(s) == s[..n]
  {
    if n > 0 {
      assert s[..n][0] == s[0];
      assert s[1..][..n - 1] == s[..n][1..];
      CStringCut(s[1..], n - 1);
      assert s[..n] == [s[0]] + s[1..][..n - 1];
    }
  }

  lemma {:induction false} UpToSpaceBound(s: string, n: nat)
    requires n < |s| && s[n] == ' '
    ensures |UpToSpace(s)| <= n
  {
    if n > 0 && s[0] != ' ' {
      UpToSpaceBound(s[1..], n - 1);
    }
  }

  /** The name part of the full name. */
  lemma NamePart(s: string)
    ensures var i, u := NameEnd(s, 8), UpToSpace(StoredName(s));
            && |u| <= i && (|u| < i ==> s[|u|] == ' ')
            && forall k :: 0 <= k < |u| ==> s[k] != ' ' && u[k] == Upper(s[k])
  {
    var i, name := NameEnd(s, 8), StoredName(s);
    var u := UpToSpace(name);
    if i < 8 {
      assert name[i] == ' ';
      UpToSpaceBound(name, i);
    }
    assert forall k :: 0 <= k < i ==> name[k] == Upper(s[k]);
    assert forall k :: 0 <= k < |u| ==> u[k] == name[k];
  }

  /** What the full name is before trimming, p being where its dot stands. */
  ghost predicate FullIs(s: string, f: string, p: nat) {
    var i := NameEnd(s, 8);
    && p <= i && |f| == p + 4 && f[p] == '.' && (p < i ==> s[p] == ' ')
    && (forall k :: 0 <= k < p ==> s[k] != ' ' && f[k] == Lower(Upper(s[k])))
    && (i == |s| ==> f[p + 1] == NUL)
    && (i < |s| ==> forall k :: p < k < p + 4 ==> f[k] == if k - p + i < |s| then Lower(Upper(s[k - p + i])) else ' ')
  }

  lemma ExtPart(s: string, before: string)
    requires |before| == 3
    ensures var i, e := NameEnd(s, 8), StoredExt(s, before);
            if i == |s| then e[0] == NUL
            else forall k :: 0 <= k < 3 ==> e[k] == if i + 1 + k < |s| then Upper(s[i + 1 + k]) else ' '
  {
    hide NameEnd, Upper;
  }

  lemma FullShape(name: string, e: string)
    requires |e| == 3
    ensures var u, f := UpToSpace(name), Full(name, e);
            && |f| == |u| + 4 && f[|u|] == '.' && (forall k :: 0 <= k < |u| ==> f[k] == Lower(u[k]))
            && (forall k :: |u| < k < |u| + 4 ==> f[k] == Lower(e[k - |u| - 1]))
  {
    hide UpToSpace, Lower;
  }

  lemma FullAt(s: string, before: string)
    requires |before| == 3
    ensures FullIs(s, Full(StoredName(s), StoredExt(s, before)), |UpToSpace(StoredName(s))|)
  {
    hide StoredName, StoredExt, UpToSpace, NameEnd, Full;
    NamePart(s);
    ExtPart(s, before);
    FullShape(StoredName(s), StoredExt(s, before));
  }

  lemma NulBehindDot(s: string, f: string, p: nat)
    requires NoNul(s) && FullIs(s, f, p) && NameEnd(s, 8) == |s|
    ensures p + 1 < |f| && f[p] == '.' && f[p + 1] == NUL && NoNul(f[..p + 1])
  {
    hide NameEnd;
  }

  lemma NoExtension(s: string, before: string)
    requires NoNul(s) && |before| == 3 && NameEnd(s, 8) == |s|
    ensures NameRead(StoredName(s), StoredExt(s, before)) != s
  {
    hide Full, UpToSpace, StoredName, StoredExt, Trimmed, CString, FullIs, NameEnd, NoNul;
    FullAt(s, before);
    var p, f := |UpToSpace(StoredName(s))|, Full(StoredName(s), StoredExt(s, before));
    NulBehindDot(s, f, p);
    TrimmedIs(f, p);
    var t := Trimmed(f, p);
    assert !Trimmable(f, p + 1, p);
    assert t[..p + 1] == f[..p + 1];
    CStringCut(t, p + 1);
    DotIsNew(s, t[..p + 1], p);
  }

  lemma DotIsNew(s: string, r: string, p: nat)
    requires NameEnd(s, 8) == |s| && p < |r| && r[p] == '.'
    ensures r != s
  {
  }

  lemma FullPlainChars(s: string, f: string, p: nat)
    requires NoNul(s) && FullIs(s, f, p) && NameEnd(s, 8) < |s|
    ensures NoNul(f) && forall k :: 0 <= k < |f| ==> !('A' <= f[k] <= 'Z')
  {
    hide NameEnd, Lower, Upper;
    forall k | 0 <= k < |f|
      ensures f[k] != NUL && !('A' <= f[k] <= 'Z')
    {
      if k < p {
        LowerUpper(s[k]);
      } else if k > p && k - p + NameEnd(s, 8) < |s| {
        LowerUpper(s[k - p + NameEnd(s, 8)]);
      }
    }
  }

  lemma LowerUpper(c: char)
    requires c != NUL
    ensures Lower(Upper(c)) != NUL && !('A' <= Lower(Upper(c)) <= 'Z')
  {
  }

  lemma PlainSurvives(s: string, f: string, p: nat)
    requires FullIs(s, f, p) && Plain(s)
    ensures Trimmed(f, p) == s
  {
    hide Trimmed, NameEnd;
    TrimmedIs(f, p);
    var t := Trimmed(f, p);
    forall k | 0 <= k < |s|
      ensures k < |f| && f[k] == s[k]
    {
      assert k < p || k == p || p < k < p + 4;
    }
    assert !Trimmable(f, |s| - 1, p);
    forall k | |s| <= k < |f|
      ensures Trimmable(f, k, p)
    {
      assert p < k < p + 4;
    }
    assert |t| <= |s|;
  }

  lemma DotAtEnd(s: string, p: nat)
    requires p <= NameEnd(s, 8) && p < |s| && s[p] == '.'
    ensures p == NameEnd(s, 8)
  {
  }

  lemma SurvivorPlain(s: string, f: string, p: nat)
    requires FullIs(s, f, p) && Trimmed(f, p) == s && NameEnd(s, 8) < |s|
    requires forall k :: 0 <= k < |f| ==> !('A' <= f[k] <= 'Z')
    ensures Plain(s)
  {
    hide Trimmed, NameEnd;
    TrimmedIs(f, p);
    assert !Trimmable(f, |s| - 1, p);
    assert forall k :: 0 <= k < |s| ==> s[k] == f[k];
    LongEnough(s, f, p);
    DotAtEnd(s, p);
  }

  /** The dot is not trimmed: then all that is left would be shorter than the name. */
  lemma LongEnough(s: string, f: string, p: nat)
    requires FullIs(s, f, p) && Trimmed(f, p) == s && NameEnd(s, 8) < |s|
    ensures |s| > p
  {
    hide Trimmed, NameEnd;
  }

  lemma WithExtension(s: string, before: string)
    requires NoNul(s) && |before| == 3 && NameEnd(s, 8) < |s|
    ensures NameRead(StoredName(s), StoredExt(s, before)) == s <==> Plain(s)
  {
    hide Full, UpToSpace, StoredName, StoredExt, Trimmed, CString, FullIs, Plain, NameEnd;
    FullAt(s, before);
    var p, f := |UpToSpace(StoredName(s))|, Full(StoredName(s), StoredExt(s, before));
    FullPlainChars(s, f, p);
    TrimmedIs(f, p);
    CStringWhole(Trimmed(f, p));
    if Plain(s) {
      PlainSurvives(s, f, p);
    }
    if Trimmed(f, p) == s {
      SurvivorPlain(s, f, p);
    }
  }

  /** A name comes back from its record as it was written, exactly when it is plain. A name
      without an extension never does: it comes back with a dot. */
  lemma NameRoundTrip(s: string, before: string)
    requires NoNul(s) && |before| == 3 && NotBlank(StoredName(s), StoredExt(s, before))
    ensures NameRead(StoredName(s), StoredExt(s, before)) == s <==> Plain(s)
  {
    hide StoredName, StoredExt, NameRead, NotBlank;
    if NameEnd(s, 8) == |s| {
      NoExtension(s, before);
    } else {
      WithExtension(s, before);
    }
  }

  /** `readme` is such a name. */
  lemma NoDotNoMatch(before: string)
    requires |before| == 3
    ensures NameRead(StoredName("readme"), StoredExt("readme", before)) != "readme"
  {
    NameEndIs("readme", 8, 6);
    NoExtension("readme", before);
  }

  // ---------------------------------------------------------------- directories

  /** A directory name that survives: up to eight characters, no space and no capital. */
  predicate PlainDir(s: string) {
    |s| <= 8 && forall k :: 0 <= k < |s| ==> s[k] != ' ' && !('A' <= s[k] <= 'Z')
  }

  /** Without an extension the dot goes with the spaces, and the name is all that is read. */
  lemma DirRead(name: string)
    requires NoNul(name) && UpToSpace(name) != ""
    ensures NameRead(name, Spaces(3)) == Map(Lower, UpToSpace(name))
  {
    FullShape(name, Spaces(3));
    hide UpToSpace, Full, Trimmed, CString;
    var u, f := UpToSpace(name), Full(name, Spaces(3));
    TrimmedIs(f, |u|);
    var t := Trimmed(f, |u|);
    assert !Trimmable(f, |u| - 1, |u|);
    forall k | |u| <= k < |f|
      ensures Trimmable(f, k, |u|)
    {
    }
    assert t == Map(Lower, u);
    CStringWhole(t);
  }

  lemma StoredDirAt(s: string)
    requires NoNul(s) && NotBlank(StoredDir(s), Spaces(3))
    ensures var u := UpToSpace(StoredDir(s));
            && NoNul(StoredDir(s)) && u != "" && |u| <= 8 && |u| <= |s|
            && (|u| < |s| && |u| < 8 ==> s[|u|] == ' ')
            && forall k :: 0 <= k < |u| ==> s[k] != ' ' && u[k] == Upper(s[k])
  {
    var d := StoredDir(s);
    var u := UpToSpace(d);
    if |s| < 8 {
      UpToSpaceBound(d, |s|);
    }
    forall k | 0 <= k < |u|
      ensures s[k] != ' ' && u[k] == Upper(s[k])
    {
      assert u[k] == d[k] == Upper(s[k]);
    }
  }

  /** A directory's name comes back from its record exactly when it is plain; dots do no harm. */
  lemma DirRoundTrip(s: string)
    requires NoNul(s) && NotBlank(StoredDir(s), Spaces(3))
    ensures NameRead(StoredDir(s), Spaces(3)) == s <==> PlainDir(s)
  {
    hide StoredDir, UpToSpace, NameRead, NotBlank;
    StoredDirAt(s);
    DirRead(StoredDir(s));
    var u := UpToSpace(StoredDir(s));
    assert forall k :: 0 <= k < |u| ==> Map(Lower, u)[k] == Lower(Upper(s[k]));
    if PlainDir(s) {
      assert |u| == |s|;
      assert Map(Lower, u) == s;
    }
    if Map(Lower, u) == s {
      assert forall k :: 0 <= k < |s| ==> s[k] == Lower(Upper(s[k]));
    }
  }
}
