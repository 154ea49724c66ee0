/**
 * Backups of the database file (`BackupService`): a copy named after the current time goes
 * into the backup folder, and then only the fifty latest backups are kept. Backup names sort
 * by time, so the oldest are the first in name order. Every failure is caught and logged;
 * nothing is reported to the caller.
 */
module BackupService {
  import opened Text
  import opened FileSystem

  /** How many backups are kept. */
  const Keep: nat := 50

  const BackupPrefix: string := "backup_"
  const BackupSuffix: string := ".json"

  // ---------------------------------------------------------------------------------------
  // Names

  /** `s.replace(/T/, '_')`-like: the first `a` becomes `b`. */
  function ReplaceFirstChar(s: string, a: char, b: char): (r: string)
    ensures |r| == |s|
  {
    if s == [] then []
    else if s[0] == a then [b] + s[1..]
    else [s[0]] + ReplaceFirstChar(s[1..], a, b)
  }

  /** `s.replace(/:/g, '-')`-like: every `a` becomes `b`. */
  function ReplaceAllChar(s: string, a: char, b: char): (r: string)
    ensures |r| == |s|
    ensures forall i | 0 <= i < |s| :: r[i] == if s[i] == a then b else s[i]
  {
    if s == [] then [] else [if s[0] == a then b else s[0]] + ReplaceAllChar(s[1..], a, b)
  }

  /** The file-name-safe timestamp: `T` to `_`, colons to dashes, cut at the first point. */
  function Timestamp(iso: string): string {
    Split(ReplaceAllChar(ReplaceFirstChar(iso, 'T', '_'), ':', '-'), '.')[0]
  }

  function BackupName(iso: string): string {
    BackupPrefix + Timestamp(iso) + BackupSuffix
  }

  /** A name the cleanup counts as one of its backups. */
  predicate IsBackup(name: string) {
    StartsWith(name, BackupPrefix) && EndsWith(name, BackupSuffix)
  }

  /** Every backup name counts as a backup and holds neither a colon nor a point before `.json`. */
  lemma BackupNameShape(iso: string)
    ensures IsBackup(BackupName(iso))
    ensures ':' !in BackupName(iso)
    ensures '.' !in Timestamp(iso)
  {
    var t := ReplaceAllChar(ReplaceFirstChar(iso, 'T', '_'), ':', '-');
    var stamp := Timestamp(iso);
    assert ':' !in t;
    assert ':' !in stamp by {
      assert Join(Split(t, '.'), ".") == t;
      SplitFirstIn(t, '.');
    }
    var r := BackupName(iso);
    assert r[..|BackupPrefix|] == BackupPrefix;
    assert r[|r| - |BackupSuffix|..] == BackupSuffix;
  }

  /** The first piece of a split is a prefix of the text. */
  lemma {:induction false} SplitFirstIn(s: string, c: char)
    ensures |Split(s, c)[0]| <= |s| && Split(s, c)[0] == s[..|Split(s, c)[0]|]
  {
    if s != [] {
      SplitFirstIn(s[1..], c);
    }
  }

  /** `toISOString()`: `YYYY-MM-DDTHH:MM:SS.sssZ`. */
  predicate IsIso(s: string) {
    && |s| == 24
    && (forall i | 0 <= i < 24 && i !in {4, 7, 10, 13, 16, 19, 23} :: IsDigit(s[i]))
    && s[4] == '-' && s[7] == '-' && s[10] == 'T' && s[13] == ':' && s[16] == ':'
    && s[19] == '.' && s[23] == 'Z'
  }

  /** For a time written by `toISOString`, the name is `backup_YYYY-MM-DD_HH-MM-SS.json`. */
  lemma BackupNameOfIso(iso: string)
    requires IsIso(iso)
    ensures BackupName(iso) ==
      BackupPrefix + (iso[..10] + "_" + iso[11..13] + "-" + iso[14..16] + "-" + iso[17..19]) + BackupSuffix
  {
    var t := ReplaceAllChar(ReplaceFirstChar(iso, 'T', '_'), ':', '-');
    IsoReplaced(iso);
    assert t == t[..19] + "." + t[20..];
    SplitAtFirst(t[..19], '.', t[20..]);
    var stamp := iso[..10] + "_" + iso[11..13] + "-" + iso[14..16] + "-" + iso[17..19];
    assert Timestamp(iso) == stamp;
  }

  /** The two replacements turn the first 20 characters of an ISO time into the stamp and a point. */
  lemma IsoReplaced(iso: string)
    requires IsIso(iso)
    ensures var t := ReplaceAllChar(ReplaceFirstChar(iso, 'T', '_'), ':', '-');
      && t[..19] == iso[..10] + "_" + iso[11..13] + "-" + iso[14..16] + "-" + iso[17..19]
      && t[19] == '.'
      && '.' !in t[..19]
  {
    var u := ReplaceFirstChar(iso, 'T', '_');
    FirstCharAt(iso, 'T', '_', 10);
    var t := ReplaceAllChar(u, ':', '-');
    var stamp := iso[..10] + "_" + iso[11..13] + "-" + iso[14..16] + "-" + iso[17..19];
    assert |stamp| == 19;
    forall i | 0 <= i < 19
      ensures t[i] == stamp[i]
    {
      assert t[i] == if u[i] == ':' then '-' else u[i];
    }
    forall i | 0 <= i < 19
      ensures t[..19][i] != '.'
    {
      assert i in {4, 7, 10, 13, 16} || IsDigit(iso[i]);
    }
  }

  /** Replacing the first `a`, found at `k`. */
  lemma {:induction false} FirstCharAt(s: string, a: char, b: char, k: nat)
    requires k < |s| && s[k] == a && forall i | 0 <= i < k :: s[i] != a
    ensures ReplaceFirstChar(s, a, b) == s[..k] + [b] + s[k + 1..]
  {
    if k > 0 {
      FirstCharAt(s[1..], a, b, k - 1);
      assert s == [s[0]] + s[1..];
    }
  }

  lemma {:induction false} SplitAtFirst(a: string, c: char, b: string)
    requires c !in a
    ensures Split(a + [c] + b, c)[0] == a
  {
    if a != [] {
      assert (a + [c] + b)[1..] == a[1..] + [c] + b;
      SplitAtFirst(a[1..], c, b);
    }
  }

  // ---------------------------------------------------------------------------------------
  // Name order: `sort()` compares strings character by character

  predicate NameLe(a: string, b: string)
    decreases |a|
  {
    a == [] || (b != [] && (a[0] < b[0] || (a[0] == b[0] && NameLe(a[1..], b[1..]))))
  }

  lemma {:induction false} NameLeTotal(a: string, b: string)
    ensures NameLe(a, b) || NameLe(b, a)
    decreases |a|
  {
    if a != [] && b != [] && a[0] == b[0] {
      NameLeTotal(a[1..], b[1..]);
    }
  }

  lemma {:induction false} NameLeTrans(a: string, b: string, c: string)
    requires NameLe(a, b) && NameLe(b, c)
    ensures NameLe(a, c)
    decreases |a|
  {
    if a != [] && a[0] == b[0] && b[0] == c[0] {
      NameLeTrans(a[1..], b[1..], c[1..]);
    }
  }

  lemma {:induction false} NameLeAntisymmetric(a: string, b: string)
    requires NameLe(a, b) && NameLe(b, a)
    ensures a == b
    decreases |a|
  {
    if a != [] {
      NameLeAntisymmetric(a[1..], b[1..]);
      assert a == [a[0]] + a[1..] && b == [b[0]] + b[1..];
    }
  }

  /** Names that agree on a prefix compare as what follows it. */
  lemma {:induction false} NameLePrefix(p: string, x: string, y: string)
    ensures NameLe(p + x, p + y) <==> NameLe(x, y)
    decreases |p|
  {
    if p == [] {
      assert p + x == x && p + y == y;
    } else {
      assert (p + x)[0] == p[0] == (p + y)[0];
      assert (p + x)[1..] == p[1..] + x && (p + y)[1..] == p[1..] + y;
      NameLePrefix(p[1..], x, y);
    }
  }

  /** Texts of one length compare the same with a common ending appended. */
  lemma {:induction false} NameLeSuffix(x: string, y: string, q: string)
    requires |x| == |y|
    ensures NameLe(x + q, y + q) <==> NameLe(x, y)
    decreases |x|
  {
    if x == [] {
      assert x + q == q && y + q == q;
      NameLeRefl(q);
    } else {
      assert (x + q)[1..] == x[1..] + q && (y + q)[1..] == y[1..] + q;
      NameLeSuffix(x[1..], y[1..], q);
    }
  }

  lemma {:induction false} NameLeRefl(x: string)
    ensures NameLe(x, x)
    decreases |x|
  {
    if x != [] {
      NameLeRefl(x[1..]);
    }
  }

  /**
   * Rewriting two texts of one length where they hold the same character, the same way in
   * both, keeps their order.
   */
  lemma {:induction false} NameLeRewrite(x: string, y: string, x': string, y': string)
    requires |x| == |y| == |x'| == |y'|
    requires forall i | 0 <= i < |x| :: (x[i] == y[i] && x'[i] == y'[i]) || (x'[i] == x[i] && y'[i] == y[i])
    ensures NameLe(x', y') <==> NameLe(x, y)
    decreases |x|
  {
    if x != [] {
      forall i | 0 <= i < |x| - 1
        ensures (x[1..][i] == y[1..][i] && x'[1..][i] == y'[1..][i]) || (x'[1..][i] == x[1..][i] && y'[1..][i] == y[1..][i])
      {
        assert x[1..][i] == x[i + 1] && y[1..][i] == y[i + 1];
        assert x'[1..][i] == x'[i + 1] && y'[1..][i] == y'[i + 1];
      }
      NameLeRewrite(x[1..], y[1..], x'[1..], y'[1..]);
    }
  }

  /**
   * The cleanup's `sort()` puts backups in time order: two names written by `performBackup`
   * compare as their times, to the second.
   */
  lemma BackupOrderIsTimeOrder(a: string, b: string)
    requires IsIso(a) && IsIso(b)
    ensures NameLe(BackupName(a), BackupName(b)) <==> NameLe(a[..19], b[..19])
  {
    var sa := StampText(a);
    var sb := StampText(b);
    StampTextName(a);
    StampTextName(b);
    NameLePrefix(BackupPrefix, sa + BackupSuffix, sb + BackupSuffix);
    NameLeSuffix(sa, sb, BackupSuffix);
    StampTextChars(a);
    StampTextChars(b);
    NameLeRewrite(a[..19], b[..19], sa, sb);
  }

  /** The timestamp part of the name of an ISO time. */
  function StampText(iso: string): string
    requires IsIso(iso)
  {
    iso[..10] + "_" + iso[11..13] + "-" + iso[14..16] + "-" + iso[17..19]
  }

  lemma StampTextName(iso: string)
    requires IsIso(iso)
    ensures BackupName(iso) == BackupPrefix + (StampText(iso) + BackupSuffix)
  {
    BackupNameOfIso(iso);
  }

  lemma StampTextChars(iso: string)
    requires IsIso(iso)
    ensures |StampText(iso)| == 19
    ensures forall i | 0 <= i < 19 ::
      StampText(iso)[i] == (if i == 10 then '_' else if i == 13 || i == 16 then '-' else iso[..19][i])
  {
  }

  predicate SortedNames(s: seq<string>) {
    forall i, j | 0 <= i < j < |s| :: NameLe(s[i], s[j])
  }

  /** Inserts `x` before the first name above it. */
  function InsertName(s: seq<string>, x: string): (r: seq<string>)
    requires SortedNames(s)
    ensures SortedNames(r)
    ensures multiset(r) == multiset(s) + multiset{x}
    ensures |r| == |s| + 1
  {
    if s == [] then [x]
    else if NameLe(x, s[0]) then
      BelowSorted(s, x);
      SortedCons(x, s);
      [x] + s
    else
      NameLeTotal(x, s[0]);
      assert s == [s[0]] + s[1..];
      var r' := InsertName(s[1..], x);
      HeadBelowInsert(s, x, r');
      SortedCons(s[0], r');
      [s[0]] + r'
  }

  lemma BelowSorted(s: seq<string>, x: string)
    requires SortedNames(s) && s != [] && NameLe(x, s[0])
    ensures forall j | 0 <= j < |s| :: NameLe(x, s[j])
  {
    forall j | 0 <= j < |s| ensures NameLe(x, s[j]) {
      if j > 0 {
        NameLeTrans(x, s[0], s[j]);
      }
    }
  }

  lemma HeadBelowInsert(s: seq<string>, x: string, r: seq<string>)
    requires SortedNames(s) && s != [] && NameLe(s[0], x)
    requires multiset(r) == multiset(s[1..]) + multiset{x}
    ensures forall j | 0 <= j < |r| :: NameLe(s[0], r[j])
  {
    forall j | 0 <= j < |r| ensures NameLe(s[0], r[j]) {
      assert r[j] in multiset(r);
      if r[j] != x {
        assert r[j] in multiset(s[1..]);
        var k :| 0 <= k < |s[1..]| && s[1..][k] == r[j];
        assert s[k + 1] == r[j];
      }
    }
  }

  lemma SortedCons(h: string, t: seq<string>)
    requires SortedNames(t) && forall j | 0 <= j < |t| :: NameLe(h, t[j])
    ensures SortedNames([h] + t)
  {
    var s := [h] + t;
    forall i, j | 0 <= i < j < |s| ensures NameLe(s[i], s[j]) {
      assert s[j] == t[j - 1];
      if i > 0 {
        assert s[i] == t[i - 1];
      }
    }
  }

  /** `backupFiles.sort()`: the names in ascending order, a permutation of the list. */
  function SortNames(s: seq<string>): (r: seq<string>)
    ensures SortedNames(r)
    ensures multiset(r) == multiset(s)
    ensures |r| == |s|
  {
    if s == [] then []
    else
      assert s == s[..|s| - 1] + [s[|s| - 1]];
      InsertName(SortNames(s[..|s| - 1]), s[|s| - 1])
  }

  // ---------------------------------------------------------------------------------------
  // Retention

  /** `files.filter(...)`: the backups of a listing, in order. */
  function Candidates(files: seq<string>): (r: seq<string>)
    ensures forall n :: n in r <==> n in files && IsBackup(n)
    ensures |r| <= |files|
  {
    if files == [] then []
    else
      var last := files[|files| - 1];
      assert files == files[..|files| - 1] + [last];
      Candidates(files[..|files| - 1]) + (if IsBackup(last) then [last] else [])
  }

  /** The backups the cleanup removes: all but the last fifty in name order. */
  function ToDelete(files: seq<string>): seq<string> {
    var c := Candidates(files);
    if |c| > Keep then SortNames(c)[..|c| - Keep] else []
  }

  /** The backups that stay. */
  function Kept(files: seq<string>): seq<string> {
    var c := Candidates(files);
    if |c| > Keep then SortNames(c)[|c| - Keep..] else c
  }

  /** With more than fifty backups exactly the count beyond fifty go; with fifty or fewer none. */
  lemma RetentionCount(files: seq<string>)
    ensures var c := Candidates(files);
      && |ToDelete(files)| == (if |c| > Keep then |c| - Keep else 0)
      && |Kept(files)| == (if |c| > Keep then Keep else |c|)
  {
  }

  /** The backups that go and those that stay are together the backups of the listing. */
  lemma RetentionPartition(files: seq<string>)
    ensures multiset(ToDelete(files)) + multiset(Kept(files)) == multiset(Candidates(files))
  {
    var c := Candidates(files);
    if |c| > Keep {
      var s := SortNames(c);
      var p := |c| - Keep;
      assert ToDelete(files) == s[..p] && Kept(files) == s[p..];
      SplitSorted(s, p);
    } else {
      assert ToDelete(files) == [] && Kept(files) == c;
    }
  }

  /** Every backup that goes is below, in name order, every backup that stays. */
  lemma RetentionOldestGo(files: seq<string>)
    ensures forall d, k | d in ToDelete(files) && k in Kept(files) :: NameLe(d, k)
  {
    var c := Candidates(files);
    if |c| > Keep {
      var s := SortNames(c);
      var p := |c| - Keep;
      assert ToDelete(files) == s[..p] && Kept(files) == s[p..];
      SplitSorted(s, p);
    }
  }

  /** Only listed backups go: no other file is ever removed. */
  lemma RetentionOnlyBackups(files: seq<string>)
    ensures forall d | d in ToDelete(files) :: d in files && IsBackup(d)
  {
    var c := Candidates(files);
    if |c| > Keep {
      var s := SortNames(c);
      var p := |c| - Keep;
      assert ToDelete(files) == s[..p];
      assert s == s[..p] + s[p..];
      forall d | d in s[..p] ensures d in c {
        assert d in s;
        assert d in multiset(s);
        assert d in multiset(c);
      }
    }
  }

  /** Cutting a sorted list: the front is below the back, and both make up the list. */
  lemma SplitSorted(s: seq<string>, p: nat)
    requires SortedNames(s) && p <= |s|
    ensures multiset(s[..p]) + multiset(s[p..]) == multiset(s)
    ensures forall d, k | d in s[..p] && k in s[p..] :: NameLe(d, k)
  {
    assert s == s[..p] + s[p..];
    forall d, k | d in s[..p] && k in s[p..] ensures NameLe(d, k) {
      var i :| 0 <= i < p && s[i] == d;
      var j :| p <= j < |s| && s[j] == k;
    }
  }

  /** No name is listed twice. */
  predicate Distinct(s: seq<string>) {
    forall i, j | 0 <= i < j < |s| :: s[i] != s[j]
  }

  lemma {:induction false} DistinctCountOne(s: seq<string>, x: string)
    requires Distinct(s)
    ensures multiset(s)[x] <= 1
  {
    if s != [] {
      var front := s[..|s| - 1];
      assert s == front + [s[|s| - 1]];
      DistinctCountOne(front, x);
      if s[|s| - 1] == x {
        assert x !in front by {
          forall k | 0 <= k < |front| ensures front[k] != x {
            assert front[k] == s[k];
          }
        }
      }
    }
  }

  lemma {:induction false} CandidatesDistinct(files: seq<string>)
    requires Distinct(files)
    ensures Distinct(Candidates(files))
  {
    if files != [] {
      var front, last := files[..|files| - 1], files[|files| - 1];
      assert files == front + [last];
      assert Distinct(front) by {
        forall i, j | 0 <= i < j < |front| ensures front[i] != front[j] {
          assert front[i] == files[i] && front[j] == files[j];
        }
      }
      CandidatesDistinct(front);
      if IsBackup(last) {
        assert last !in front by {
          forall k | 0 <= k < |front| ensures front[k] != last {
            assert front[k] == files[k];
          }
        }
      }
    }
  }

  /**
   * With distinct names, removing the selected backups leaves every other file and exactly
   * the backups that are kept: the fifty latest when there were more.
   */
  lemma RetentionKeepsLatest(files: seq<string>)
    requires Distinct(files)
    ensures forall n :: n in Without(files, set d | d in ToDelete(files)) <==>
      n in files && (!IsBackup(n) || n in Kept(files))
  {
    RetentionOnlyBackups(files);
    var c := Candidates(files);
    if |c| > Keep {
      CandidatesDistinct(files);
      SplitDistinct(c, SortNames(c), |c| - Keep);
    }
  }

  /** Cutting a permutation of distinct names in two leaves every name in exactly one part. */
  lemma SplitDistinct(c: seq<string>, s: seq<string>, p: nat)
    requires Distinct(c) && multiset(s) == multiset(c) && p <= |s|
    ensures forall n | n in s[p..] :: n !in s[..p]
    ensures forall n | n in c :: n in s[..p] || n in s[p..]
  {
    assert s == s[..p] + s[p..];
    forall n | n in s[p..] ensures n !in s[..p] {
      DistinctCountOne(c, n);
      assert multiset(s)[n] == multiset(s[..p])[n] + multiset(s[p..])[n];
    }
    forall n | n in c ensures n in s[..p] || n in s[p..] {
      assert n in multiset(c);
      assert n in multiset(s);
    }
  }

  /** The names the cleanup loop gets through: those before the first it cannot remove. */
  function Attempted(toDelete: seq<string>, locked: set<string>): (r: seq<string>)
    ensures |r| <= |toDelete| && r == toDelete[..|r|]
    ensures forall n | n in r :: n !in locked
    ensures |r| < |toDelete| ==> toDelete[|r|] in locked
  {
    if toDelete == [] || toDelete[0] in locked then []
    else
      var r' := Attempted(toDelete[1..], locked);
      assert [toDelete[0]] + r' == toDelete[..|r'| + 1];
      [toDelete[0]] + r'
  }

  /** The folder after `cleanOldBackups`. */
  function CleanupOf(names: seq<string>, locked: set<string>): seq<string> {
    Without(names, set d | d in Attempted(ToDelete(names), locked))
  }

  /** When every backup to remove can go, the cleanup removes them all. */
  lemma CleanupUnlocked(names: seq<string>, locked: set<string>)
    requires forall d | d in ToDelete(names) :: d !in locked
    ensures CleanupOf(names, locked) == Without(names, set d | d in ToDelete(names))
  {
    var t := ToDelete(names);
    assert Attempted(t, locked) == t;
  }

  // ---------------------------------------------------------------------------------------
  // The service

  class Backups {
    /** The backup folder. */
    const dir: Folder

    /** The constructor creates the folder when it is missing. */
    constructor (dir0: Folder)
      modifies dir0
      ensures dir == dir0 && dir.present
      ensures dir.names == if old(dir0.present) then old(dir0.names) else []
    {
      dir := dir0;
      new;
      dir0.Ensure();
    }

    /**
     * `cleanOldBackups`. `locked` holds the backups whose `unlink` throws; the first of them
     * stops the loop, and the error is logged.
     */
    method CleanOldBackups(locked: set<string>)
      modifies dir
      ensures dir.present == old(dir.present)
      ensures dir.names == if old(dir.present) then CleanupOf(old(dir.names), locked) else old(dir.names)
    {
      if !dir.present {
        return;
      }
      var files := dir.names;
      var backupFiles := Candidates(files);
      if |backupFiles| <= Keep {
        WithoutNothing(files, {});
        assert (set d | d in ToDelete(files)) == {};
        return;
      }
      var sorted := SortNames(backupFiles);
      var toDelete := sorted[..|sorted| - Keep];
      assert toDelete == ToDelete(files);
      RetentionOnlyBackups(files);
      RemoveEach(files, toDelete, locked);
    }

    /**
     * The `forEach` of `cleanOldBackups`: unlink each listed name in turn; the first that
     * cannot be removed throws out of the loop.
     */
    method RemoveEach(ghost files: seq<string>, toDelete: seq<string>, locked: set<string>)
      requires dir.present && dir.names == files
      requires forall d | d in toDelete :: d in files
      modifies dir
      ensures dir.present
      ensures dir.names == Without(files, set d | d in Attempted(toDelete, locked))
    {
      ghost var gone: set<string> := {};
      WithoutNothing(files, {});
      for i := 0 to |toDelete|
        invariant dir.present
        invariant forall n :: n in gone <==> n in toDelete[..i]
        invariant forall n | n in toDelete[..i] :: n !in locked
        invariant dir.names == Without(files, gone)
      {
        var f := toDelete[i];
        GoneStep(toDelete, i, gone, locked);
        if f in dir.names {
          ghost var before := dir.names;
          var removed := dir.Unlink(f, f !in locked);
          UnlinkStep(files, gone, f, f !in locked, before, dir.names);
          if !removed {
            GoneAttempted(toDelete, locked, i, gone);
            return;
          }
        } else {
          AbsentStep(files, gone, f);
        }
        gone := gone + {f};
      }
      GoneAttempted(toDelete, locked, |toDelete|, gone);
    }

    /**
     * `performBackup`. `databaseExists` says whether the database file is there, `iso` is
     * the current time as `toISOString` writes it, and `copyOk` whether the copy succeeds.
     * A failed copy skips the cleanup.
     */
    method PerformBackup(databaseExists: bool, iso: string, copyOk: bool, locked: set<string>)
      modifies dir
      ensures dir.present == old(dir.present)
      ensures !databaseExists || !copyOk || !old(dir.present) ==> dir.names == old(dir.names)
      ensures databaseExists && copyOk && old(dir.present) ==>
        var copied := if BackupName(iso) in old(dir.names) then old(dir.names) else old(dir.names) + [BackupName(iso)];
        dir.names == CleanupOf(copied, locked)
    {
      if !databaseExists {
        return;
      }
      var backupPath := BackupName(iso);
      if !dir.present || !copyOk {
        return;
      }
      dir.Write(backupPath);
      CleanOldBackups(locked);
    }
  }

  /** One more pass of the cleanup loop over `toDelete[i]`. */
  lemma GoneStep(toDelete: seq<string>, i: nat, gone: set<string>, locked: set<string>)
    requires i < |toDelete|
    requires forall n :: n in gone <==> n in toDelete[..i]
    requires forall n | n in toDelete[..i] :: n !in locked
    ensures forall n :: n in gone + {toDelete[i]} <==> n in toDelete[..i + 1]
    ensures toDelete[i] !in locked ==> forall n | n in toDelete[..i + 1] :: n !in locked
  {
    assert toDelete[..i + 1] == toDelete[..i] + [toDelete[i]];
  }

  /** A name already missing from the folder is already among the removed ones. */
  lemma AbsentStep(files: seq<string>, gone: set<string>, f: string)
    requires f in files && f !in Without(files, gone)
    ensures Without(files, gone + {f}) == Without(files, gone)
  {
    assert gone + {f} == gone;
  }

  /** Where the cleanup loop stops, the names it removed are the attempted ones. */
  lemma GoneAttempted(toDelete: seq<string>, locked: set<string>, i: nat, gone: set<string>)
    requires i <= |toDelete|
    requires forall n :: n in gone <==> n in toDelete[..i]
    requires forall n | n in toDelete[..i] :: n !in locked
    requires i < |toDelete| ==> toDelete[i] in locked
    ensures gone == set d | d in Attempted(toDelete, locked)
  {
    AttemptedStops(toDelete, locked, i);
  }

  /** The loop stops at `i` exactly when `i` is where the attempted names end. */
  lemma AttemptedStops(toDelete: seq<string>, locked: set<string>, i: nat)
    requires i <= |toDelete|
    requires forall n | n in toDelete[..i] :: n !in locked
    requires i < |toDelete| ==> toDelete[i] in locked
    ensures Attempted(toDelete, locked) == toDelete[..i]
  {
  }
}
