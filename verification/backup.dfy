/**
 * Backup file names: `name.N.bak`. `apply-vars` writes the first free number
 * (`getNextBackupName`); `install` reads back the highest number present
 * (`findLatestBackup`). The two rules differ once the numbers have a gap.
 */
module Backup {
  import opened Results
  import Decimal

  datatype BackupError = NoBackups(base: string)

  /** `fmt.Sprintf("%s.%d.bak", name, i)`. */
  function BackupName(name: string, i: nat): string {
    name + "." + Decimal.Show(i) + ".bak"
  }

  /**
   * The number an entry carries when it matches `^` + quoted `base` +
   * `\.(\d+)\.bak$`: `base` literally, a dot, one or more ASCII digits,
   * `.bak`, and nothing else.
   */
  function ParseSuffix(entry: string, base: string): (r: Option<nat>)
    ensures r.Some? ==> |entry| >= |base| + 6 && entry[..|base|] == base
  {
    if |entry| >= |base| + 6 && entry[..|base|] == base && entry[|base|] == '.'
       && entry[|entry| - 4..] == ".bak" && Decimal.AllDigits(entry[|base| + 1..|entry| - 4])
    then Some(Decimal.Value(entry[|base| + 1..|entry| - 4]))
    else None
  }

  /** The names `apply-vars` writes are the names `install` recognises, with the same number. */
  lemma ParseBackupName(name: string, i: nat)
    ensures ParseSuffix(BackupName(name, i), name) == Some(i)
  {
    var e := BackupName(name, i);
    var digits := Decimal.Show(i);
    assert e[..|name|] == name;
    assert e[|name|] == '.';
    assert e[|e| - 4..] == ".bak";
    assert e[|name| + 1..|e| - 4] == digits;
    Decimal.ValueOfShow(i);
  }

  /**
   * Install recognises exactly the names `base.<digits>.bak`, with one or more
   * digits, and reads the number those digits denote; leading zeros included.
   */
  lemma ParseSuffixForm(entry: string, base: string, n: nat)
    ensures ParseSuffix(entry, base) == Some(n) <==>
      exists d :: |d| >= 1 && Decimal.AllDigits(d) && entry == base + "." + d + ".bak" && n == Decimal.Value(d)
  {
    if ParseSuffix(entry, base) == Some(n) {
      var d := entry[|base| + 1..|entry| - 4];
      assert entry == entry[..|base|] + [entry[|base|]] + d + entry[|entry| - 4..];
      assert entry == base + "." + d + ".bak";
    }
    if exists d :: |d| >= 1 && Decimal.AllDigits(d) && entry == base + "." + d + ".bak" && n == Decimal.Value(d) {
      var d :| |d| >= 1 && Decimal.AllDigits(d) && entry == base + "." + d + ".bak" && n == Decimal.Value(d);
      assert entry[..|base|] == base;
      assert entry[|base|] == '.';
      assert entry[|entry| - 4..] == ".bak";
      assert entry[|base| + 1..|entry| - 4] == d;
    }
  }

  /** Different numbers give different backup names. */
  lemma BackupNameInjective(name: string, i: nat, j: nat)
    requires BackupName(name, i) == BackupName(name, j)
    ensures i == j
  {
    ParseBackupName(name, i);
    ParseBackupName(name, j);
  }

  /** The number is read, then printed again: a zero-padded backup is reported under another name. */
  lemma ZeroPaddedBackup()
    ensures ParseSuffix("x.007.bak", "x") == Some(7)
    ensures BackupName("x", 7) == "x.7.bak"
  {
    var e := "x.007.bak";
    assert e[..1] == "x" && e[1] == '.' && e[|e| - 4..] == ".bak";
    assert e[2..|e| - 4] == "007";
    assert Decimal.Value("007") == 7 by {
      assert "007"[..2] == "00" && "00"[..1] == "0" && "0"[..0] == "";
    }
  }

  /** `name.i.bak` is missing and every `name.j.bak` with `1 <= j < i` exists. */
  predicate IsFirstFree(existing: set<string>, name: string, i: nat) {
    && i >= 1
    && BackupName(name, i) !in existing
    && forall j :: 1 <= j < i ==> BackupName(name, j) in existing
  }

  /** Only finitely many backup numbers can be taken: at most one per existing file. */
  lemma {:induction false} TakenBound(existing: set<string>, name: string, i: nat)
    requires forall j :: 1 <= j <= i ==> BackupName(name, j) in existing
    ensures i <= |existing|
  {
    if i > 0 {
      var top := BackupName(name, i);
      var rest := existing - {top};
      forall j | 1 <= j <= i - 1
        ensures BackupName(name, j) in rest
      {
        if BackupName(name, j) == top {
          BackupNameInjective(name, j, i);
        }
      }
      TakenBound(rest, name, i - 1);
    }
  }

  /** The first free number at or above `i`, given that all below `i` are taken. */
  function FreeIndexFrom(existing: set<string>, name: string, i: nat): (r: nat)
    requires i >= 1
    requires forall j :: 1 <= j < i ==> BackupName(name, j) in existing
    ensures r >= i && IsFirstFree(existing, name, r)
    decreases |existing| + 1 - i
  {
    if BackupName(name, i) !in existing then i
    else
      TakenBound(existing, name, i);
      FreeIndexFrom(existing, name, i + 1)
  }

  /** The number `getNextBackupName` settles on. */
  function FreeIndex(existing: set<string>, name: string): (r: nat)
    ensures IsFirstFree(existing, name, r)
  {
    FreeIndexFrom(existing, name, 1)
  }

  /** There is only one first free number. */
  lemma FirstFreeUnique(existing: set<string>, name: string, i: nat, j: nat)
    requires IsFirstFree(existing, name, i) && IsFirstFree(existing, name, j)
    ensures i == j
  {
  }

  /**
   * `getNextBackupName`: probe `name.1.bak`, `name.2.bak`, ... and return the
   * first that does not exist. The loop ends because the directory is finite.
   */
  method NextBackupName(existing: set<string>, name: string) returns (candidate: string)
    ensures candidate == BackupName(name, FreeIndex(existing, name))
    ensures candidate !in existing
  {
    var i := 1;
    while BackupName(name, i) in existing
      invariant i >= 1
      invariant forall j :: 1 <= j < i ==> BackupName(name, j) in existing
      decreases |existing| - i
    {
      TakenBound(existing, name, i);
      i := i + 1;
    }
    FirstFreeUnique(existing, name, i, FreeIndex(existing, name));
    candidate := BackupName(name, i);
  }

  /** The numbers carried by the entries that are backups of `base`. */
  function BackupNumbers(entries: set<string>, base: string): set<nat> {
    set e | e in entries && ParseSuffix(e, base).Some? :: ParseSuffix(e, base).value
  }

  /** Adding one entry adds its number, if it carries one. */
  lemma BackupNumbersAdd(entries: set<string>, e: string, base: string)
    ensures BackupNumbers(entries + {e}, base)
         == BackupNumbers(entries, base) + (if ParseSuffix(e, base).Some? then {ParseSuffix(e, base).value} else {})
  {
  }

  /** The largest element of a non-empty finite set of numbers. */
  ghost function MaxOf(s: set<nat>): (m: nat)
    requires s != {}
    ensures m in s && forall x :: x in s ==> x <= m
  {
    var x :| x in s;
    if s == {x} then
      assert forall y :: y in s ==> y == x;
      x
    else
      var r := MaxOf(s - {x});
      assert forall y :: y in s ==> y == x || y in s - {x};
      if x > r then x else r
  }

  /** The names a directory listing holds. */
  function Listed(entries: seq<string>): set<string> {
    set e | e in entries
  }

  /** What `findLatestBackup` answers for a directory holding `entries`. */
  ghost function LatestBackup(entries: set<string>, base: string): (r: Result<string, BackupError>)
    ensures r.Failure? ==> r.error == NoBackups(base)
    ensures r.Success? ==> ParseSuffix(r.value, base).Some? && ParseSuffix(r.value, base).value in BackupNumbers(entries, base)
  {
    var nums := BackupNumbers(entries, base);
    if nums == {} then Failure(NoBackups(base))
    else
      ParseBackupName(base, MaxOf(nums));
      Success(BackupName(base, MaxOf(nums)))
  }

  /**
   * `findLatestBackup`: collect the numbers of the matching entries in listing
   * order, then report the largest (the source sorts them and takes the last).
   * The answer depends only on which entries are present, not on their order.
   */
  method FindLatestBackup(entries: seq<string>, base: string) returns (r: Result<string, BackupError>)
    ensures r == LatestBackup(Listed(entries), base)
  {
    var nums: seq<nat> := [];
    var i := 0;
    while i < |entries|
      invariant 0 <= i <= |entries|
      invariant (set n | n in nums) == BackupNumbers(Listed(entries[..i]), base)
    {
      BackupNumbersAdd(Listed(entries[..i]), entries[i], base);
      assert Listed(entries[..i + 1]) == Listed(entries[..i]) + {entries[i]} by {
        assert entries[..i + 1] == entries[..i] + [entries[i]];
      }
      match ParseSuffix(entries[i], base) {
        case Some(n) =>
          nums := nums + [n];
        case None =>
      }
      i := i + 1;
    }
    assert entries[..i] == entries;
    assert (set n | n in nums) == BackupNumbers(Listed(entries), base);
    if |nums| == 0 {
      assert (set n | n in nums) == {};
      r := Failure(NoBackups(base));
      return;
    }
    var m := nums[0];
    var j := 1;
    while j < |nums|
      invariant 1 <= j <= |nums|
      invariant m in nums
      invariant forall k :: 0 <= k < j ==> nums[k] <= m
    {
      if nums[j] > m {
        m := nums[j];
      }
      j := j + 1;
    }
    ghost var all := set n | n in nums;
    assert nums[0] in all;
    assert MaxOf(all) == m by {
      var top := MaxOf(all);
      assert top in nums;
      assert m in all;
      var k :| 0 <= k < |nums| && nums[k] == top;
    }
    assert BackupNumbers(Listed(entries), base) == all != {};
    r := Success(BackupName(base, m));
  }

  /** `findLatestBackup` fails exactly when no entry has the backup form. */
  lemma LatestBackupFailsIffNone(entries: set<string>, base: string)
    ensures LatestBackup(entries, base).Failure?
        <==> forall e :: e in entries ==> ParseSuffix(e, base).None?
  {
    if !forall e :: e in entries ==> ParseSuffix(e, base).None? {
      var e :| e in entries && ParseSuffix(e, base).Some?;
      assert ParseSuffix(e, base).value in BackupNumbers(entries, base);
    }
  }

  /** Otherwise it names the largest number carried by a matching entry. */
  lemma LatestBackupIsMax(entries: set<string>, base: string)
    requires LatestBackup(entries, base).Success?
    ensures exists n :: n in BackupNumbers(entries, base)
                   && LatestBackup(entries, base).value == BackupName(base, n)
                   && forall m :: m in BackupNumbers(entries, base) ==> m <= n
  {
    var n := MaxOf(BackupNumbers(entries, base));
    assert LatestBackup(entries, base).value == BackupName(base, n);
  }

  /** With backups 1, 2 and 5 present, the first free number is 3. */
  lemma GapFreeIndex(v: string)
    ensures FreeIndex({BackupName(v, 1), BackupName(v, 2), BackupName(v, 5)}, v) == 3
  {
    var dir := {BackupName(v, 1), BackupName(v, 2), BackupName(v, 5)};
    ParseBackupName(v, 1);
    ParseBackupName(v, 2);
    ParseBackupName(v, 3);
    ParseBackupName(v, 5);
    assert IsFirstFree(dir, v, 3);
    FirstFreeUnique(dir, v, 3, FreeIndex(dir, v));
  }

  /** With backups 1, 2 and 5 present, the latest is number 5. */
  lemma GapLatest(v: string)
    ensures LatestBackup({BackupName(v, 1), BackupName(v, 2), BackupName(v, 5)}, v) == Success(BackupName(v, 5))
  {
    var dir := {BackupName(v, 1), BackupName(v, 2), BackupName(v, 5)};
    ParseBackupName(v, 1);
    ParseBackupName(v, 2);
    ParseBackupName(v, 5);
    var nums := BackupNumbers(dir, v);
    forall x | x in nums
      ensures x <= 5
    {
      var e :| e in dir && ParseSuffix(e, v).Some? && ParseSuffix(e, v).value == x;
    }
    assert BackupName(v, 5) in dir;
    assert 5 in nums;
    assert MaxOf(nums) == 5;
  }

  /**
   * With backups 1, 2 and 5 present, `apply-vars` writes number 3 while
   * `install` reads number 5.
   */
  lemma GapExample(v: string)
    ensures FreeIndex({BackupName(v, 1), BackupName(v, 2), BackupName(v, 5)}, v) == 3
    ensures LatestBackup({BackupName(v, 1), BackupName(v, 2), BackupName(v, 5)}, v) == Success(BackupName(v, 5))
  {
    GapFreeIndex(v);
    GapLatest(v);
  }

  /**
   * The backup `apply-vars` writes is the one `install` later picks exactly
   * when no backup already present carries a larger number than the first
   * free one.
   */
  lemma WrittenBackupIsLatestIff(existing: set<string>, name: string)
    ensures var i := FreeIndex(existing, name);
      LatestBackup(existing + {BackupName(name, i)}, name) == Success(BackupName(name, i))
      <==> forall n :: n in BackupNumbers(existing, name) ==> n <= i
  {
    var i := FreeIndex(existing, name);
    var b := BackupName(name, i);
    ParseBackupName(name, i);
    BackupNumbersAdd(existing, b, name);
    var nums := BackupNumbers(existing + {b}, name);
    assert nums == BackupNumbers(existing, name) + {i};
    var m := MaxOf(nums);
    if LatestBackup(existing + {b}, name) == Success(b) {
      BackupNameInjective(name, m, i);
    }
  }

  /** Only the names of `name`'s own backups decide the next number. */
  lemma FreeIndexOnlyReadsBackups(a: set<string>, b: set<string>, name: string)
    requires forall n :: ParseSuffix(n, name).Some? ==> (n in a <==> n in b)
    ensures FreeIndex(a, name) == FreeIndex(b, name)
  {
    var i := FreeIndex(a, name);
    forall j | j >= 1
      ensures BackupName(name, j) in a <==> BackupName(name, j) in b
    {
      ParseBackupName(name, j);
    }
    assert IsFirstFree(b, name, i);
    FirstFreeUnique(b, name, i, FreeIndex(b, name));
  }
}
