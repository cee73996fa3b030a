/**
 * The `fileops move` command: scan a listing of the source folder, select the
 * plain files whose extension and/or name match the filters, optionally
 * rename them by substring replacement, and move each selected file into
 * every destination folder in turn, stopping at the first failure.
 */
module Move {
  import opened Results

  /** One entry of the source folder's listing. */
  datatype Entry = Entry(name: string, isDir: bool)

  /** The command's flags. */
  datatype Options = Options(
    dests: seq<string>,
    exts: seq<string>,
    substr: string,
    cond: string,
    renameFrom: string,
    renameTo: string,
    rename: bool)

  /** ASCII lower-casing of one character. */
  function Lower(c: char): (r: char)
    ensures 'A' <= c <= 'Z' ==> r as int == c as int + 32
    ensures !('A' <= c <= 'Z') ==> r == c
  {
    if 'A' <= c <= 'Z' then (c as int + 32) as char else c
  }

  /** `strings.ToLower`, on ASCII letters. */
  function ToLower(s: string): (r: string)
    ensures |r| == |s|
    ensures forall i :: 0 <= i < |s| ==> r[i] == Lower(s[i])
  {
    if s == [] then [] else [Lower(s[0])] + ToLower(s[1..])
  }

  /** `strings.EqualFold`, on ASCII letters: the same length, and equal character by character up to case. */
  function EqualFold(a: string, b: string): (r: bool)
    ensures r <==> |a| == |b| && forall i :: 0 <= i < |a| ==> Lower(a[i]) == Lower(b[i])
  {
    ToLower(a) == ToLower(b)
  }

  /** `sub` occurs in `s` starting at index `i`. */
  predicate OccursAt(s: string, sub: string, i: int) {
    0 <= i && i + |sub| <= |s| && s[i..i + |sub|] == sub
  }

  /** `strings.Contains`: `sub` occurs somewhere in `s`. */
  predicate Contains(s: string, sub: string) {
    exists i :: 0 <= i <= |s| - |sub| && OccursAt(s, sub, i)
  }

  /**
   * `filepath.Ext`: the suffix starting at the last `.` of the final path
   * element, or empty when that element has no `.`.
   */
  function Ext(path: string): (r: string)
    ensures |r| <= |path| && r == path[|path| - |r|..]
    ensures r != [] ==> r[0] == '.' && forall i :: 1 <= i < |r| ==> r[i] != '.' && r[i] != '/'
    ensures r == [] ==> forall i :: 0 <= i < |path| && path[i] == '.' ==> '/' in path[i + 1..]
  {
    if path == [] then []
    else
      var last := path[|path| - 1];
      if last == '/' then []
      else if last == '.' then "."
      else
        var e := Ext(path[..|path| - 1]);
        if e == [] then [] else e + [last]
  }

  /** The extension filter: no extensions given, or the name's extension equals one of them up to case. */
  predicate ExtMatches(name: string, exts: seq<string>) {
    |exts| == 0 || exists i :: 0 <= i < |exts| && EqualFold(Ext(name), exts[i])
  }

  /** The extension loop of the source, which stops at the first match. */
  method ExtMatch(name: string, exts: seq<string>) returns (m: bool)
    ensures m == ExtMatches(name, exts)
  {
    m := |exts| == 0;
    var ext := Ext(name);
    var i := 0;
    while i < |exts|
      invariant 0 <= i <= |exts|
      invariant m == (|exts| == 0 || exists k :: 0 <= k < i && EqualFold(ext, exts[k]))
    {
      if EqualFold(ext, exts[i]) {
        m := true;
        break;
      }
      i := i + 1;
    }
  }

  /** The window of `name` at index `i` equals `sub` up to case. */
  predicate FoldsAt(name: string, sub: string, i: int) {
    0 <= i <= |name| - |sub| && EqualFold(name[i..i + |sub|], sub)
  }

  /** The window at `i` of the lower-cased name is the lower-cased window. */
  lemma FoldedWindow(name: string, sub: string, i: int)
    requires 0 <= i <= |name| - |sub|
    ensures OccursAt(ToLower(name), ToLower(sub), i) <==> FoldsAt(name, sub, i)
  {
    assert ToLower(name)[i..i + |sub|] == ToLower(name[i..i + |sub|]);
  }

  /** The substring filter: no substring given, or it occurs in the name up to case. */
  function StrMatch(name: string, substr: string): (r: bool)
    ensures substr == "" ==> r
    ensures r && substr != "" ==> |substr| <= |name|
  {
    substr == "" || Contains(ToLower(name), ToLower(substr))
  }

  /** A non-empty substring selects a name exactly when some window of the name equals it up to case. */
  lemma StrMatchFolds(name: string, substr: string)
    ensures substr != "" ==> (StrMatch(name, substr) <==> exists i :: FoldsAt(name, substr, i))
  {
    if Contains(ToLower(name), ToLower(substr)) {
      var i :| 0 <= i <= |ToLower(name)| - |ToLower(substr)| && OccursAt(ToLower(name), ToLower(substr), i);
      FoldedWindow(name, substr, i);
    }
    if exists i :: FoldsAt(name, substr, i) {
      var i :| FoldsAt(name, substr, i);
      FoldedWindow(name, substr, i);
    }
  }

  /** The selection: never a directory; both filters under `and`, either one under any other condition. */
  function Selects(e: Entry, opts: Options): (r: bool)
    ensures r ==> !e.isDir
    ensures r ==> ExtMatches(e.name, opts.exts) || StrMatch(e.name, opts.substr)
    ensures r && opts.cond == "and" ==> ExtMatches(e.name, opts.exts) && StrMatch(e.name, opts.substr)
  {
    && !e.isDir
    && var extMatch := ExtMatches(e.name, opts.exts);
    var strMatch := StrMatch(e.name, opts.substr);
    if opts.cond == "and" then extMatch && strMatch else extMatch || strMatch
  }

  /** `strings.ReplaceAll`: every non-overlapping occurrence of `pat`, scanning left to right, becomes `rep`. */
  function ReplaceAll(s: string, pat: string, rep: string): (r: string)
    requires pat != ""
    ensures |rep| <= |pat| ==> |r| <= |s|
    ensures |rep| >= |pat| ==> |r| >= |s|
    decreases |s|
  {
    if |s| < |pat| then s
    else if s[..|pat|] == pat then rep + ReplaceAll(s[|pat|..], pat, rep)
    else [s[0]] + ReplaceAll(s[1..], pat, rep)
  }

  /** The name a selected file gets in each destination. */
  function NewName(name: string, opts: Options): (r: string)
    ensures !opts.rename || opts.renameFrom == "" ==> r == name
  {
    if opts.rename && opts.renameFrom != "" then ReplaceAll(name, opts.renameFrom, opts.renameTo) else name
  }

  /** A file's location: its folder and its name in it. */
  datatype Path = Path(dir: string, name: string)

  /** The file tree: file contents by location, the folders that exist, and those that cannot be created. */
  datatype Tree = Tree(files: map<Path, string>, dirs: set<string>, blocked: set<string>)

  datatype MoveError = MkdirFailed(dir: string) | MoveFailed(from: Path, to: Path)

  /** Where the command left the tree, and how it ended. */
  datatype Moved = Moved(tree: Tree, status: Outcome<MoveError>)

  /** `os.MkdirAll`. */
  function MkdirAll(t: Tree, d: string): (r: Result<Tree, MoveError>)
    ensures r.Success? <==> d !in t.blocked
    ensures r.Success? ==> r.value == t.(dirs := t.dirs + {d})
  {
    if d in t.blocked then Failure(MkdirFailed(d)) else Success(t.(dirs := t.dirs + {d}))
  }

  /** Every location other than `from` and `to` holds the same file, or none, in both maps. */
  ghost predicate SameElsewhere(before: map<Path, string>, after: map<Path, string>, from: Path, to: Path) {
    forall p :: p != from && p != to ==>
      (p in after <==> p in before) && (p in before ==> after[p] == before[p])
  }

  /** `moveFile`: the content leaves `from` and lands at `to`, and nothing else changes; a missing source fails. */
  function MoveFile(t: Tree, from: Path, to: Path): (r: Result<Tree, MoveError>)
    ensures r.Success? <==> from in t.files
    ensures r.Success? ==> to in r.value.files && r.value.files[to] == t.files[from]
    ensures r.Success? && from != to ==> from !in r.value.files
    ensures r.Success? ==> r.value.dirs == t.dirs && r.value.blocked == t.blocked
    ensures r.Success? ==> SameElsewhere(t.files, r.value.files, from, to)
  {
    if from !in t.files then Failure(MoveFailed(from, to))
    else Success(t.(files := (t.files - {from})[to := t.files[from]]))
  }

  /** The destination loop for one file, over the first `j` destinations. */
  function ToDests(t: Tree, from: Path, newName: string, dests: seq<string>, j: nat): (r: Moved)
    requires j <= |dests|
    ensures r.tree.blocked == t.blocked
  {
    if j == 0 then Moved(t, Pass)
    else
      var prev := ToDests(t, from, newName, dests, j - 1);
      if prev.status.Fail? then prev
      else
        var d := dests[j - 1];
        match MkdirAll(prev.tree, d)
        case Failure(e) => Moved(prev.tree, Fail(e))
        case Success(made) =>
          match MoveFile(made, from, Path(d, newName))
          case Failure(e) => Moved(made, Fail(e))
          case Success(next) => Moved(next, Pass)
  }

  /** What the entry loop does with one listing entry: nothing, or move the file at `from` under `newName`. */
  datatype Step = Skip | Relocate(from: Path, newName: string)

  /** The step for entry `e` of folder `src`: a selected file is moved under its new name. */
  function StepFor(src: string, e: Entry, opts: Options): Step {
    if Selects(e, opts) then Relocate(Path(src, e.name), NewName(e.name, opts)) else Skip
  }

  /** The steps for a whole listing, entry by entry. */
  function Plan(src: string, entries: seq<Entry>, opts: Options): (p: seq<Step>)
    ensures |p| == |entries|
    ensures forall i :: 0 <= i < |entries| ==> p[i] == StepFor(src, entries[i], opts)
  {
    seq(|entries|, i requires 0 <= i < |entries| => StepFor(src, entries[i], opts))
  }

  /**
   * The entry loop over the first `k` steps, stopping at the first failure.
   * The folders that cannot be created stay so.
   */
  function RunSteps(t: Tree, steps: seq<Step>, dests: seq<string>, k: nat): (r: Moved)
    requires k <= |steps|
    ensures r.tree.blocked == t.blocked
  {
    if k == 0 then Moved(t, Pass)
    else
      var prev := RunSteps(t, steps, dests, k - 1);
      if prev.status.Fail? then prev
      else match steps[k - 1]
        case Skip => prev
        case Relocate(from, newName) =>
          ToDests(prev.tree, from, newName, dests, |dests|)
  }

  /** The whole command over a listing of folder `src`. */
  function MoveEntries(t: Tree, src: string, entries: seq<Entry>, opts: Options): Moved {
    RunSteps(t, Plan(src, entries, opts), opts.dests, |entries|)
  }

  lemma {:induction false} ToDestsStayFailed(t: Tree, from: Path, newName: string, dests: seq<string>, i: nat, j: nat)
    requires i <= j <= |dests|
    requires ToDests(t, from, newName, dests, i).status.Fail?
    ensures ToDests(t, from, newName, dests, j) == ToDests(t, from, newName, dests, i)
    decreases j
  {
    if j > i {
      ToDestsStayFailed(t, from, newName, dests, i, j - 1);
    }
  }

  lemma {:induction false} RunStepsStayFailed(t: Tree, steps: seq<Step>, dests: seq<string>, i: nat, k: nat)
    requires i <= k <= |steps|
    requires RunSteps(t, steps, dests, i).status.Fail?
    ensures RunSteps(t, steps, dests, k) == RunSteps(t, steps, dests, i)
    decreases k
  {
    if k > i {
      RunStepsStayFailed(t, steps, dests, i, k - 1);
    }
  }

  /** The destination loop of the source for one selected file. */
  method MoveToDests(t: Tree, from: Path, newName: string, dests: seq<string>) returns (out: Tree, status: Outcome<MoveError>)
    ensures Moved(out, status) == ToDests(t, from, newName, dests, |dests|)
  {
    out := t;
    var j := 0;
    while j < |dests|
      invariant 0 <= j <= |dests|
      invariant ToDests(t, from, newName, dests, j) == Moved(out, Pass)
    {
      var d := dests[j];
      match MkdirAll(out, d) {
        case Failure(err) =>
          status := Fail(err);
          ToDestsStayFailed(t, from, newName, dests, j + 1, |dests|);
          return;
        case Success(made) =>
          out := made;
      }
      match MoveFile(out, from, Path(d, newName)) {
        case Failure(err) =>
          status := Fail(err);
          ToDestsStayFailed(t, from, newName, dests, j + 1, |dests|);
          return;
        case Success(next) =>
          out := next;
      }
      j := j + 1;
    }
    status := Pass;
  }

  /** The body of the entry loop up to the destination loop: the filters, then the rename. */
  method EntryStep(src: string, e: Entry, opts: Options) returns (step: Step)
    ensures step == StepFor(src, e, opts)
  {
    if e.isDir {
      return Skip;
    }
    var extMatch := ExtMatch(e.name, opts.exts);
    var strMatch := StrMatch(e.name, opts.substr);
    var ok := false;
    if opts.cond == "and" {
      ok := extMatch && strMatch;
    } else {
      ok := extMatch || strMatch;
    }
    if !ok {
      return Skip;
    }
    var newName := e.name;
    if opts.rename && opts.renameFrom != "" {
      newName := ReplaceAll(newName, opts.renameFrom, opts.renameTo);
    }
    step := Relocate(Path(src, e.name), newName);
  }

  /** The command over a listing of folder `src`, as the source runs it. */
  method MoveCommand(t: Tree, src: string, entries: seq<Entry>, opts: Options) returns (out: Tree, status: Outcome<MoveError>)
    ensures Moved(out, status) == MoveEntries(t, src, entries, opts)
  {
    ghost var plan := Plan(src, entries, opts);
    out := t;
    var i := 0;
    while i < |entries|
      invariant 0 <= i <= |entries|
      invariant RunSteps(t, plan, opts.dests, i) == Moved(out, Pass)
    {
      var step := EntryStep(src, entries[i], opts);
      assert step == plan[i];
      i := i + 1;
      if step.Skip? {
        continue;
      }
      out, status := MoveToDests(out, step.from, step.newName, opts.dests);
      if status.Fail? {
        RunStepsStayFailed(t, plan, opts.dests, i, |entries|);
        return;
      }
    }
    status := Pass;
  }

  /** Directories are never selected, whatever the filters. */
  lemma DirectoriesNeverSelected(e: Entry, opts: Options)
    requires e.isDir
    ensures !Selects(e, opts)
  {
  }

  /** Under any condition but `and`, giving only one of the two filters selects every file. */
  lemma OneFilterSelectsAll(e: Entry, opts: Options)
    requires !e.isDir && opts.cond != "and"
    requires opts.exts == [] || opts.substr == ""
    ensures Selects(e, opts)
  {
  }

  /** Under `and`, a file is selected exactly when both filters match. */
  lemma AndNeedsBoth(e: Entry, opts: Options)
    requires opts.cond == "and"
    ensures Selects(e, opts) <==> !e.isDir && ExtMatches(e.name, opts.exts) && StrMatch(e.name, opts.substr)
  {
  }

  /** Under any other condition, a file is selected exactly when at least one filter matches. */
  lemma OrNeedsEither(e: Entry, opts: Options)
    requires opts.cond != "and"
    ensures Selects(e, opts) <==> !e.isDir && (ExtMatches(e.name, opts.exts) || StrMatch(e.name, opts.substr))
  {
  }

  /** An extension given without its leading dot never matches any name. */
  lemma ExtWithoutDotNeverMatches(name: string, ex: string)
    requires ex != "" && ex[0] != '.'
    ensures !EqualFold(Ext(name), ex)
  {
    var e := Ext(name);
    if e != [] {
      assert ToLower(e)[0] == '.';
      assert ToLower(ex)[0] != '.';
    }
  }

  /** A name ending in a dot and a suffix without dots or slashes has that suffix, dot included, as its extension. */
  lemma {:induction false} ExtOfSuffix(stem: string, ext: string)
    requires forall i :: 0 <= i < |ext| ==> ext[i] != '.' && ext[i] != '/'
    ensures Ext(stem + "." + ext) == "." + ext
    decreases |ext|
  {
    if ext != [] {
      var shorter := ext[..|ext| - 1];
      ExtOfSuffix(stem, shorter);
      assert (stem + "." + ext)[..|stem + "." + ext| - 1] == stem + "." + shorter;
      assert "." + ext == "." + shorter + [ext[|ext| - 1]];
    }
  }

  /** A name without any dot has no extension. */
  lemma {:induction false} ExtWithoutDot(name: string)
    requires '.' !in name
    ensures Ext(name) == ""
  {
    if name != [] {
      var init := name[..|name| - 1];
      assert '.' !in init by {
        assert forall i :: 0 <= i < |init| ==> init[i] == name[i];
      }
      ExtWithoutDot(init);
    }
  }

  /** Extensions compare without regard to case. */
  lemma ExtMatchIgnoresCase()
    ensures ExtMatches("b.PDF", [".pdf"])
  {
    ExtOfSuffix("b", "PDF");
    assert "b" + "." + "PDF" == "b.PDF";
    assert ToLower(".PDF") == ".pdf" by {
      assert ToLower("F") == "f";
      assert ToLower("DF") == "df";
      assert ToLower("PDF") == "pdf";
    }
    assert EqualFold(Ext("b.PDF"), [".pdf"][0]);
  }

  /** An extension flag without its dot does not match the file it names. */
  lemma ExtMatchNeedsDot()
    ensures !ExtMatches("b.pdf", ["pdf"])
  {
    ExtWithoutDotNeverMatches("b.pdf", "pdf");
  }

  /** The substring filter ignores case on both sides. */
  lemma SubstringIgnoresCase()
    ensures StrMatch("a-DOC", "doc")
  {
    assert ToLower("C") == "c";
    assert ToLower("OC") == "oc";
    assert ToLower("DOC") == "doc";
    assert ToLower("-DOC") == "-doc";
    assert ToLower("a-DOC") == "a-doc";
    assert ToLower("doc") == "doc";
    assert OccursAt("a-doc", "doc", 2);
  }

  /** A name without the pattern is left as it is. */
  lemma {:induction false} ReplaceAllAbsent(s: string, pat: string, rep: string)
    requires pat != "" && !Contains(s, pat)
    ensures ReplaceAll(s, pat, rep) == s
    decreases |s|
  {
    if |s| >= |pat| {
      assert !OccursAt(s, pat, 0);
      forall i | 0 <= i <= |s[1..]| - |pat|
        ensures !OccursAt(s[1..], pat, i)
      {
        assert !OccursAt(s, pat, i + 1);
        assert s[1..][i..i + |pat|] == s[i + 1..i + 1 + |pat|];
      }
      ReplaceAllAbsent(s[1..], pat, rep);
    }
  }

  /** Replacing a pattern by itself changes nothing. */
  lemma {:induction false} ReplaceAllSelf(s: string, pat: string)
    requires pat != ""
    ensures ReplaceAll(s, pat, pat) == s
    decreases |s|
  {
    if |s| >= |pat| {
      if s[..|pat|] == pat {
        ReplaceAllSelf(s[|pat|..], pat);
        assert s == s[..|pat|] + s[|pat|..];
      } else {
        ReplaceAllSelf(s[1..], pat);
        assert s == [s[0]] + s[1..];
      }
    }
  }

  /**
   * The leftmost occurrence is replaced, and the scan resumes right after it:
   * when the first occurrence of `pat` in `a + pat + b` is the one after `a`,
   * the result is `a`, then `rep`, then the replacement of `b`.
   */
  lemma {:induction false} ReplaceAllSplit(a: string, pat: string, rep: string, b: string)
    requires pat != ""
    requires forall i :: 0 <= i < |a| ==> !OccursAt(a + pat + b, pat, i)
    ensures ReplaceAll(a + pat + b, pat, rep) == a + rep + ReplaceAll(b, pat, rep)
    decreases |a|
  {
    var s := a + pat + b;
    if a == [] {
      assert s[..|pat|] == pat && s[|pat|..] == b;
    } else {
      var t := a[1..] + pat + b;
      assert s[1..] == t;
      assert !OccursAt(s, pat, 0);
      NoOccurrenceShift(a, pat, b);
      ReplaceAllSplit(a[1..], pat, rep, b);
      calc {
        ReplaceAll(s, pat, rep);
        [a[0]] + ReplaceAll(t, pat, rep);
        [a[0]] + (a[1..] + rep + ReplaceAll(b, pat, rep));
        { assert a == [a[0]] + a[1..]; }
        a + rep + ReplaceAll(b, pat, rep);
      }
    }
  }

  /** Dropping the first character of `a` keeps `pat` from occurring inside what is left of `a`. */
  lemma NoOccurrenceShift(a: string, pat: string, b: string)
    requires a != []
    requires forall i :: 0 <= i < |a| ==> !OccursAt(a + pat + b, pat, i)
    ensures forall i :: 0 <= i < |a| - 1 ==> !OccursAt(a[1..] + pat + b, pat, i)
  {
    var s, t := a + pat + b, a[1..] + pat + b;
    forall i | 0 <= i < |a| - 1
      ensures !OccursAt(t, pat, i)
    {
      assert !OccursAt(s, pat, i + 1);
      assert t[i..i + |pat|] == s[i + 1..i + 1 + |pat|];
    }
  }

  /** Occurrences are taken left to right and do not overlap. */
  lemma ReplaceAllExamples()
    ensures ReplaceAll("aaa", "aa", "b") == "ba"
    ensures ReplaceAll("v1-v1", "v1", "v2") == "v2-v2"
  {
  }

  /** With no destination the entry loop changes nothing and succeeds. */
  lemma {:induction false} NoDestinationsNoChange(t: Tree, steps: seq<Step>, k: nat)
    requires k <= |steps|
    ensures RunSteps(t, steps, [], k) == Moved(t, Pass)
  {
    if k > 0 {
      NoDestinationsNoChange(t, steps, k - 1);
    }
  }

  /** The destination loop only moves content around: every content it leaves was there before. */
  lemma {:induction false} ToDestsKeepsContent(t: Tree, from: Path, newName: string, dests: seq<string>, j: nat)
    requires j <= |dests|
    ensures ToDests(t, from, newName, dests, j).tree.files.Values <= t.files.Values
    ensures ToDests(t, from, newName, dests, j).tree.blocked == t.blocked
  {
    if j > 0 {
      ToDestsKeepsContent(t, from, newName, dests, j - 1);
    }
  }

  /** The entry loop never invents content. */
  lemma {:induction false} RunKeepsContent(t: Tree, steps: seq<Step>, dests: seq<string>, k: nat)
    requires k <= |steps|
    ensures RunSteps(t, steps, dests, k).tree.files.Values <= t.files.Values
  {
    if k > 0 {
      RunKeepsContent(t, steps, dests, k - 1);
      var prev := RunSteps(t, steps, dests, k - 1);
      if prev.status.Pass? && steps[k - 1].Relocate? {
        ToDestsKeepsContent(prev.tree, steps[k - 1].from, steps[k - 1].newName, dests, |dests|);
      }
    }
  }

  /**
   * With two or more destinations a file's second move always fails: the
   * first move took the file away (unless it moved onto itself).
   */
  lemma SecondDestinationFails(t: Tree, from: Path, newName: string, dests: seq<string>)
    requires |dests| >= 2 && Path(dests[0], newName) != from
    ensures ToDests(t, from, newName, dests, |dests|).status.Fail?
  {
    var first := ToDests(t, from, newName, dests, 1);
    if first.status.Pass? {
      assert from !in first.tree.files;
    }
    ToDestsStayFailed(t, from, newName, dests, 2, |dests|);
  }

  /** Once a step relocates a file to a first destination other than where it is, the entry loop has failed. */
  lemma {:induction false} RelocationFails(t: Tree, steps: seq<Step>, dests: seq<string>, k: nat, j: nat)
    requires j < k <= |steps|
    requires |dests| >= 2 && steps[j].Relocate? && Path(dests[0], steps[j].newName) != steps[j].from
    ensures RunSteps(t, steps, dests, k).status.Fail?
  {
    var prev := RunSteps(t, steps, dests, k - 1);
    if j < k - 1 {
      RelocationFails(t, steps, dests, k - 1, j);
    } else if prev.status.Pass? {
      SecondDestinationFails(prev.tree, steps[j].from, steps[j].newName, dests);
    }
  }

  /**
   * Consequently the command never succeeds with two or more destinations once
   * any file is selected, when the first destination is not the source folder.
   */
  lemma MultipleDestinationsFail(t: Tree, src: string, entries: seq<Entry>, opts: Options, j: nat)
    requires j < |entries|
    requires |opts.dests| >= 2 && opts.dests[0] != src
    requires Selects(entries[j], opts)
    ensures MoveEntries(t, src, entries, opts).status.Fail?
  {
    var plan := Plan(src, entries, opts);
    assert plan[j] == Relocate(Path(src, entries[j].name), NewName(entries[j].name, opts));
    RelocationFails(t, plan, opts.dests, |entries|, j);
  }

  /** One destination that can be created, and a source that exists: the file moves there. */
  lemma OneDestinationStep(t: Tree, from: Path, newName: string, dests: seq<string>)
    requires |dests| == 1 && dests[0] !in t.blocked && from in t.files
    ensures ToDests(t, from, newName, dests, |dests|)
         == Moved(t.(dirs := t.dirs + {dests[0]}, files := (t.files - {from})[Path(dests[0], newName) := t.files[from]]), Pass)
  {
  }

  /**
   * In `tr`, the files relocated by the first `k` steps have left their place
   * and arrived in `d` under their new names, and the files of the later
   * relocations are still in place.
   */
  predicate MovedFirst(tr: Tree, d: string, steps: seq<Step>, k: nat) {
    && (forall i :: 0 <= i < k <= |steps| && steps[i].Relocate? ==>
          steps[i].from !in tr.files && Path(d, steps[i].newName) in tr.files)
    && (forall i :: k <= i < |steps| && steps[i].Relocate? ==> steps[i].from in tr.files)
  }

  /**
   * In `tr`, each file of the first `k` relocations sits in `d` under its new
   * name with the content it had in `t0`, and the files of the later
   * relocations still hold their content from `t0`.
   */
  predicate ContentMoved(t0: Tree, tr: Tree, d: string, steps: seq<Step>, k: nat) {
    && (forall i :: 0 <= i < k <= |steps| && steps[i].Relocate? && steps[i].from in t0.files ==>
          && Path(d, steps[i].newName) in tr.files
          && tr.files[Path(d, steps[i].newName)] == t0.files[steps[i].from])
    && (forall i :: k <= i < |steps| && steps[i].Relocate? && steps[i].from in t0.files ==>
          steps[i].from in tr.files && tr.files[steps[i].from] == t0.files[steps[i].from])
  }

  /** No two relocations use the same new name. */
  predicate DistinctNewNames(steps: seq<Step>) {
    forall i, j :: 0 <= i < j < |steps| && steps[i].Relocate? && steps[j].Relocate? ==>
      steps[i].newName != steps[j].newName
  }

  /** Relocations move distinct files, none of them out of folder `d`. */
  predicate SeparateRelocations(d: string, steps: seq<Step>) {
    && (forall i :: 0 <= i < |steps| && steps[i].Relocate? ==> steps[i].from.dir != d)
    && (forall i, j :: 0 <= i < j < |steps| && steps[i].Relocate? && steps[j].Relocate? ==> steps[i].from != steps[j].from)
  }

  /** Moving the file of the `k`-th step into `d` extends `MovedFirst` by one step. */
  lemma MovedFirstStep(prev: Tree, next: Tree, d: string, steps: seq<Step>, k: nat)
    requires 0 < k <= |steps| && steps[k - 1].Relocate? && SeparateRelocations(d, steps)
    requires MovedFirst(prev, d, steps, k - 1)
    requires var from := steps[k - 1].from;
      next.files == (prev.files - {from})[Path(d, steps[k - 1].newName) := prev.files[from]]
    ensures MovedFirst(next, d, steps, k)
  {
    var from := steps[k - 1].from;
    forall i | 0 <= i < |steps| && steps[i].Relocate?
      ensures i < k ==> steps[i].from !in next.files
      ensures i < k ==> Path(d, steps[i].newName) in next.files
      ensures i >= k ==> steps[i].from in next.files
    {
      if i >= k {
        assert steps[i].from != from;
      }
      assert Path(d, steps[i].newName) != from;
    }
  }

  /** With one destination that can be created, separate relocations all succeed. */
  lemma {:induction false} SingleDestinationRun(t: Tree, steps: seq<Step>, d: string, k: nat)
    requires k <= |steps|
    requires d !in t.blocked && SeparateRelocations(d, steps)
    requires MovedFirst(t, d, steps, 0)
    ensures RunSteps(t, steps, [d], k).status.Pass?
    ensures RunSteps(t, steps, [d], k).tree.blocked == t.blocked
    ensures MovedFirst(RunSteps(t, steps, [d], k).tree, d, steps, k)
  {
    if k > 0 {
      SingleDestinationRun(t, steps, d, k - 1);
      var prev := RunSteps(t, steps, [d], k - 1).tree;
      if steps[k - 1].Relocate? {
        var step := ToDests(prev, steps[k - 1].from, steps[k - 1].newName, [d], 1);
        assert RunSteps(t, steps, [d], k) == step;
        OneDestinationStep(prev, steps[k - 1].from, steps[k - 1].newName, [d]);
        MovedFirstStep(prev, step.tree, d, steps, k);
      }
    }
  }

  /**
   * With one destination that can be created and distinct new names, every
   * relocated file arrives with its original content.
   */
  lemma {:induction false} SingleDestinationContent(t: Tree, steps: seq<Step>, d: string, k: nat)
    requires k <= |steps|
    requires d !in t.blocked && SeparateRelocations(d, steps) && DistinctNewNames(steps)
    requires MovedFirst(t, d, steps, 0)
    ensures ContentMoved(t, RunSteps(t, steps, [d], k).tree, d, steps, k)
  {
    if k > 0 {
      SingleDestinationContent(t, steps, d, k - 1);
      SingleDestinationRun(t, steps, d, k - 1);
      var prev := RunSteps(t, steps, [d], k - 1).tree;
      if steps[k - 1].Relocate? {
        var from, nn := steps[k - 1].from, steps[k - 1].newName;
        assert from in prev.files;
        var step := ToDests(prev, from, nn, [d], 1);
        assert RunSteps(t, steps, [d], k) == step;
        OneDestinationStep(prev, from, nn, [d]);
        assert step.tree.files == (prev.files - {from})[Path(d, nn) := prev.files[from]];
        ContentMovedStep(t, prev, step.tree, d, steps, k);
      } else {
        assert RunSteps(t, steps, [d], k) == RunSteps(t, steps, [d], k - 1);
      }
    }
  }

  /** Moving the file of the `k`-th step into `d` extends `ContentMoved` by one step. */
  lemma ContentMovedStep(t0: Tree, prev: Tree, next: Tree, d: string, steps: seq<Step>, k: nat)
    requires 0 < k <= |steps| && steps[k - 1].Relocate?
    requires SeparateRelocations(d, steps) && DistinctNewNames(steps)
    requires ContentMoved(t0, prev, d, steps, k - 1) && steps[k - 1].from in prev.files
    requires var from := steps[k - 1].from;
      next.files == (prev.files - {from})[Path(d, steps[k - 1].newName) := prev.files[from]]
    ensures ContentMoved(t0, next, d, steps, k)
  {
    var from, nn := steps[k - 1].from, steps[k - 1].newName;
    forall i | 0 <= i < k - 1 && steps[i].Relocate? && steps[i].from in t0.files
      ensures Path(d, steps[i].newName) in next.files && next.files[Path(d, steps[i].newName)] == t0.files[steps[i].from]
    {
      assert Path(d, steps[i].newName) != Path(d, nn);
    }
    forall i | k <= i < |steps| && steps[i].Relocate? && steps[i].from in t0.files
      ensures steps[i].from in next.files && next.files[steps[i].from] == t0.files[steps[i].from]
    {
      assert steps[i].from != from;
    }
  }

  /**
   * With one destination folder that can be created and differs from the
   * source folder, and a listing of distinct names whose selected files all
   * exist, the command succeeds and every selected file has left the source
   * folder and arrived under its new name.
   */
  lemma SingleDestinationMovesAll(t: Tree, src: string, entries: seq<Entry>, opts: Options)
    requires |opts.dests| == 1 && opts.dests[0] !in t.blocked && opts.dests[0] != src
    requires forall i, j :: 0 <= i < j < |entries| ==> entries[i].name != entries[j].name
    requires forall i :: 0 <= i < |entries| && Selects(entries[i], opts) ==> Path(src, entries[i].name) in t.files
    ensures MoveEntries(t, src, entries, opts).status.Pass?
    ensures MoveEntries(t, src, entries, opts).tree.blocked == t.blocked
    ensures forall i :: 0 <= i < |entries| && Selects(entries[i], opts) ==>
      && Path(src, entries[i].name) !in MoveEntries(t, src, entries, opts).tree.files
      && Path(opts.dests[0], NewName(entries[i].name, opts)) in MoveEntries(t, src, entries, opts).tree.files
  {
    var d := opts.dests[0];
    var plan := Plan(src, entries, opts);
    assert opts.dests == [d];
    assert forall i :: 0 <= i < |entries| ==> (plan[i].Relocate? <==> Selects(entries[i], opts));
    assert forall i :: 0 <= i < |entries| && plan[i].Relocate? ==>
      plan[i] == Relocate(Path(src, entries[i].name), NewName(entries[i].name, opts));
    SingleDestinationRun(t, plan, d, |entries|);
  }

  /**
   * Under the same conditions, when the selected files also get distinct new
   * names, each arrives in the destination with the content it had in the
   * source folder.
   */
  lemma SingleDestinationKeepsContent(t: Tree, src: string, entries: seq<Entry>, opts: Options)
    requires |opts.dests| == 1 && opts.dests[0] !in t.blocked && opts.dests[0] != src
    requires forall i, j :: 0 <= i < j < |entries| ==> entries[i].name != entries[j].name
    requires forall i :: 0 <= i < |entries| && Selects(entries[i], opts) ==> Path(src, entries[i].name) in t.files
    requires forall i, j :: 0 <= i < j < |entries| && Selects(entries[i], opts) && Selects(entries[j], opts) ==>
      NewName(entries[i].name, opts) != NewName(entries[j].name, opts)
    ensures forall i :: 0 <= i < |entries| && Selects(entries[i], opts) ==>
      && Path(opts.dests[0], NewName(entries[i].name, opts)) in MoveEntries(t, src, entries, opts).tree.files
      && MoveEntries(t, src, entries, opts).tree.files[Path(opts.dests[0], NewName(entries[i].name, opts))]
         == t.files[Path(src, entries[i].name)]
  {
    var d := opts.dests[0];
    var plan := Plan(src, entries, opts);
    assert opts.dests == [d];
    assert forall i :: 0 <= i < |entries| ==> (plan[i].Relocate? <==> Selects(entries[i], opts));
    assert forall i :: 0 <= i < |entries| && plan[i].Relocate? ==>
      plan[i] == Relocate(Path(src, entries[i].name), NewName(entries[i].name, opts));
    SingleDestinationContent(t, plan, d, |entries|);
  }
}
