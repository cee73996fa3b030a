/**
 * The `apply-vars` command on a chart directory: snapshot the three managed
 * files to their `.default` names, substitute `variables.json` into the two
 * values files, keep each result that is valid YAML as the next numbered
 * backup, and finally back up `variables.json` itself. The working files are
 * only read.
 */
module ApplyVars {
  import opened Results
  import opened Files
  import P = Placeholder
  import B = Backup

  const ValuesFile: string := "values.yaml"
  const TagFile: string := "values-tag.yaml"
  const VarsFile: string := "variables.json"

  /** The snapshot pairs, copied in this order. */
  const Defaults: seq<(string, string)> := [
    (ValuesFile, "values.default"),
    (TagFile, "values-tag.default"),
    (VarsFile, "variables.default")
  ]

  /** The files whose placeholders are substituted, in this order. */
  const Targets: seq<string> := [ValuesFile, TagFile]

  /** The JSON and YAML libraries, which are not part of this model. */
  datatype Decoders = Decoders(
    parseVars: string -> Option<P.VarMap>,  // json.Unmarshal into map[string]string
    validYaml: string -> bool)              // yaml.Unmarshal succeeds

  datatype ApplyError =
    | SnapshotFailed(src: string, dst: string, cause: IoError)
    | ReadVarsFailed(cause: IoError)
    | BadVariables
    | ReadTargetFailed(name: string, cause: IoError)
    | InvalidYaml(name: string)
    | WriteBackupFailed(bak: string, cause: IoError)
    | VarsBackupFailed(bak: string, cause: IoError)

  /** Step 1 for the first `k` pairs: copy each, stopping at the first failure. */
  function Snapshots(fs: FileSystem, k: nat): Run<ApplyError>
    requires k <= |Defaults|
  {
    if k == 0 then Run(fs, Pass)
    else
      var prev := Snapshots(fs, k - 1);
      if prev.status.Fail? then prev
      else
        var (src, dst) := Defaults[k - 1];
        match Copy(prev.fs, src, dst)
        case Failure(e) => Run(prev.fs, Fail(SnapshotFailed(src, dst, e)))
        case Success(next) => Run(next, Pass)
  }

  /** Step 3 for one target: read, substitute, validate, write the next numbered backup. */
  function ProcessTarget(fs: FileSystem, vars: P.VarMap, dec: Decoders, name: string): Run<ApplyError> {
    match Read(fs, name)
    case Failure(e) => Run(fs, Fail(ReadTargetFailed(name, e)))
    case Success(orig) =>
      var replaced := P.Substitute(orig, vars);
      if !dec.validYaml(replaced) then Run(fs, Fail(InvalidYaml(name)))
      else
        var bak := B.BackupName(name, B.FreeIndex(fs.files.Keys, name));
        match Write(fs, bak, replaced)
        case Failure(e) => Run(fs, Fail(WriteBackupFailed(bak, e)))
        case Success(next) => Run(next, Pass)
  }

  /** Step 3 for the first `k` targets, stopping at the first failure. */
  function Process(fs: FileSystem, vars: P.VarMap, dec: Decoders, k: nat): Run<ApplyError>
    requires k <= |Targets|
  {
    if k == 0 then Run(fs, Pass)
    else
      var prev := Process(fs, vars, dec, k - 1);
      if prev.status.Fail? then prev else ProcessTarget(prev.fs, vars, dec, Targets[k - 1])
  }

  /** Step 4: copy `variables.json` to its next numbered backup. */
  function BackupVars(fs: FileSystem): Run<ApplyError> {
    var bak := B.BackupName(VarsFile, B.FreeIndex(fs.files.Keys, VarsFile));
    match Copy(fs, VarsFile, bak)
    case Failure(e) => Run(fs, Fail(VarsBackupFailed(bak, e)))
    case Success(next) => Run(next, Pass)
  }

  /**
   * The whole command, step by step, as a function of the directory it starts
   * from. It never changes which names can be read or written.
   */
  function ApplyVarsSpec(fs: FileSystem, dec: Decoders): (r: Run<ApplyError>)
    ensures SameFaults(fs, r.fs)
  {
    var snap := Snapshots(fs, |Defaults|);
    SnapshotsFrame(fs, |Defaults|);
    if snap.status.Fail? then snap
    else
      match Read(snap.fs, VarsFile)
      case Failure(e) => Run(snap.fs, Fail(ReadVarsFailed(e)))
      case Success(raw) =>
        match dec.parseVars(raw)
        case None => Run(snap.fs, Fail(BadVariables))
        case Some(vars) =>
          var subst := Process(snap.fs, vars, dec, |Targets|);
          ProcessFaults(snap.fs, vars, dec, |Targets|);
          if subst.status.Fail? then subst
          else
            BackupVarsFrame(subst.fs);
            BackupVars(subst.fs)
  }

  /** Once a step has failed, later steps leave the run as it is. */
  lemma {:induction false} SnapshotsStayFailed(fs: FileSystem, j: nat, k: nat)
    requires j <= k <= |Defaults|
    requires Snapshots(fs, j).status.Fail?
    ensures Snapshots(fs, k) == Snapshots(fs, j)
    decreases k
  {
    if k > j {
      SnapshotsStayFailed(fs, j, k - 1);
    }
  }

  lemma {:induction false} ProcessStaysFailed(fs: FileSystem, vars: P.VarMap, dec: Decoders, j: nat, k: nat)
    requires j <= k <= |Targets|
    requires Process(fs, vars, dec, j).status.Fail?
    ensures Process(fs, vars, dec, k) == Process(fs, vars, dec, j)
    decreases k
  {
    if k > j {
      ProcessStaysFailed(fs, vars, dec, j, k - 1);
    }
  }

  /** `apply-vars` as the source runs it: loops over the snapshot pairs and the targets. */
  method ApplyVars(fs: FileSystem, dec: Decoders) returns (out: FileSystem, status: Outcome<ApplyError>)
    ensures Run(out, status) == ApplyVarsSpec(fs, dec)
  {
    // Step 1: default copies
    out := fs;
    var i := 0;
    while i < |Defaults|
      invariant 0 <= i <= |Defaults|
      invariant Snapshots(fs, i) == Run(out, Pass)
    {
      var (src, dst) := Defaults[i];
      match Copy(out, src, dst) {
        case Failure(e) =>
          status := Fail(SnapshotFailed(src, dst, e));
          SnapshotsStayFailed(fs, i + 1, |Defaults|);
          return;
        case Success(next) =>
          out := next;
      }
      i := i + 1;
    }
    ghost var snapped := out;

    // Step 2: load variables.json
    var raw: string;
    match Read(out, VarsFile) {
      case Failure(e) =>
        status := Fail(ReadVarsFailed(e));
        return;
      case Success(text) =>
        raw := text;
    }
    var vars: P.VarMap;
    match dec.parseVars(raw) {
      case None =>
        status := Fail(BadVariables);
        return;
      case Some(m) =>
        vars := m;
    }

    // Step 3: substitute, validate, write numbered backups
    var t := 0;
    while t < |Targets|
      invariant 0 <= t <= |Targets|
      invariant Process(snapped, vars, dec, t) == Run(out, Pass)
    {
      var name := Targets[t];
      var orig: string;
      match Read(out, name) {
        case Failure(e) =>
          status := Fail(ReadTargetFailed(name, e));
          ProcessStaysFailed(snapped, vars, dec, t + 1, |Targets|);
          return;
        case Success(text) =>
          orig := text;
      }
      var replaced := P.Substitute(orig, vars);
      if !dec.validYaml(replaced) {
        status := Fail(InvalidYaml(name));
        ProcessStaysFailed(snapped, vars, dec, t + 1, |Targets|);
        return;
      }
      var bak := B.NextBackupName(out.files.Keys, name);
      match Write(out, bak, replaced) {
        case Failure(e) =>
          status := Fail(WriteBackupFailed(bak, e));
          ProcessStaysFailed(snapped, vars, dec, t + 1, |Targets|);
          return;
        case Success(next) =>
          out := next;
      }
      t := t + 1;
    }

    // Step 4: numbered backup of variables.json
    var varsBak := B.NextBackupName(out.files.Keys, VarsFile);
    match Copy(out, VarsFile, varsBak) {
      case Failure(e) =>
        status := Fail(VarsBackupFailed(varsBak, e));
      case Success(next) =>
        out := next;
        status := Pass;
    }
  }

  /** The names of the three snapshots. */
  predicate IsSnapshotName(n: string) {
    n == "values.default" || n == "values-tag.default" || n == "variables.default"
  }

  /** `n` has the form `name.<digits>.bak`. */
  predicate IsBackupOf(n: string, name: string) {
    B.ParseSuffix(n, name).Some?
  }

  /** A backup of one of the three managed files. */
  predicate IsBackupName(n: string) {
    IsBackupOf(n, ValuesFile) || IsBackupOf(n, TagFile) || IsBackupOf(n, VarsFile)
  }

  /** The backup name `apply-vars` picks for `name` when it starts on `fs`. */
  function NewBackup(fs: FileSystem, name: string): string {
    B.BackupName(name, B.FreeIndex(fs.files.Keys, name))
  }

  /** The managed names fall into disjoint classes. */
  lemma NameClasses(n: string)
    ensures IsSnapshotName(n) ==> !IsBackupName(n)
    ensures IsBackupOf(n, ValuesFile) ==> !IsBackupOf(n, TagFile) && !IsBackupOf(n, VarsFile)
    ensures IsBackupOf(n, TagFile) ==> !IsBackupOf(n, VarsFile)
    ensures n in {ValuesFile, TagFile, VarsFile} ==> !IsSnapshotName(n) && !IsBackupName(n)
  {
    if IsBackupOf(n, ValuesFile) {
      assert n[..|ValuesFile|] == ValuesFile;
      assert n[6] == '.' && n[2] == 'l';
    }
    if IsBackupOf(n, TagFile) {
      assert n[..|TagFile|] == TagFile;
      assert n[6] == '-' && n[2] == 'l';
    }
    if IsBackupOf(n, VarsFile) {
      assert n[..|VarsFile|] == VarsFile;
      assert n[2] == 'r';
    }
  }

  /** Sources and destinations of the snapshot pairs do not overlap. */
  lemma DefaultsDistinct()
    ensures forall i, j :: 0 <= i < |Defaults| && 0 <= j < |Defaults| ==> Defaults[i].0 != Defaults[j].1
    ensures forall i, j :: 0 <= i < j < |Defaults| ==> Defaults[i].1 != Defaults[j].1
    ensures forall j :: 0 <= j < |Defaults| ==> IsSnapshotName(Defaults[j].1) && !IsSnapshotName(Defaults[j].0)
  {
  }

  /** Step 1 writes only snapshot names. */
  lemma {:induction false} SnapshotsFrame(fs: FileSystem, k: nat)
    requires k <= |Defaults|
    ensures SameFaults(fs, Snapshots(fs, k).fs)
    ensures forall n :: !IsSnapshotName(n) ==> Unchanged(fs, Snapshots(fs, k).fs, n)
  {
    if k > 0 {
      SnapshotsFrame(fs, k - 1);
      DefaultsDistinct();
    }
  }

  /** Step 3 for `name` writes only a backup of `name`: the one numbered from the directory it starts on. */
  lemma TargetFrame(fs: FileSystem, vars: P.VarMap, dec: Decoders, name: string)
    ensures SameFaults(fs, ProcessTarget(fs, vars, dec, name).fs)
    ensures forall n :: n != NewBackup(fs, name) ==> Unchanged(fs, ProcessTarget(fs, vars, dec, name).fs, n)
    ensures IsBackupOf(NewBackup(fs, name), name)
  {
    B.ParseBackupName(name, B.FreeIndex(fs.files.Keys, name));
  }

  /** Reading the backups of `name` gives the same next number before and after writes elsewhere. */
  lemma NewBackupUnaffected(a: FileSystem, b: FileSystem, name: string)
    requires forall n :: IsBackupOf(n, name) ==> Unchanged(a, b, n)
    ensures NewBackup(a, name) == NewBackup(b, name)
  {
    forall n | B.ParseSuffix(n, name).Some?
      ensures n in a.files.Keys <==> n in b.files.Keys
    {
      assert Unchanged(a, b, n);
    }
    B.FreeIndexOnlyReadsBackups(a.files.Keys, b.files.Keys, name);
  }

  /** Step 1 after `k` pairs has written at most the first `k` snapshot names. */
  lemma {:induction false} SnapshotsTouch(fs: FileSystem, k: nat)
    requires k <= |Defaults|
    ensures forall n :: (forall i :: 0 <= i < k ==> n != Defaults[i].1) ==> Unchanged(fs, Snapshots(fs, k).fs, n)
  {
    if k > 0 {
      SnapshotsTouch(fs, k - 1);
      var prev := Snapshots(fs, k - 1);
      forall n | forall i :: 0 <= i < k ==> n != Defaults[i].1
        ensures Unchanged(fs, Snapshots(fs, k).fs, n)
      {
        assert Unchanged(fs, prev.fs, n);
        if prev.status.Pass? {
          assert n != Defaults[k - 1].1;
          match Copy(prev.fs, Defaults[k - 1].0, Defaults[k - 1].1)
          case Failure(_) =>
          case Success(next) =>
            assert Unchanged(prev.fs, next, n);
        }
      }
    }
  }

  /** When step 1 has passed `k` pairs, each of their snapshots holds its source's original content. */
  lemma {:induction false} SnapshotsWritten(fs: FileSystem, k: nat)
    requires k <= |Defaults|
    requires Snapshots(fs, k).status.Pass?
    ensures forall j :: 0 <= j < k ==>
      && Defaults[j].0 in fs.files
      && Defaults[j].1 in Snapshots(fs, k).fs.files
      && Snapshots(fs, k).fs.files[Defaults[j].1] == fs.files[Defaults[j].0]
  {
    if k > 0 {
      SnapshotsWritten(fs, k - 1);
      SnapshotsFrame(fs, k - 1);
      DefaultsDistinct();
      assert !IsSnapshotName(Defaults[k - 1].0);
    }
  }

  /** A failed step 1 failed on one pair, after all pairs before it had passed. */
  lemma {:induction false} SnapshotsFailure(fs: FileSystem, k: nat) returns (j: nat)
    requires k <= |Defaults|
    requires Snapshots(fs, k).status.Fail?
    ensures j < k && Snapshots(fs, j).status.Pass?
    ensures Snapshots(fs, k).fs == Snapshots(fs, j).fs
    ensures Snapshots(fs, k).status.error.SnapshotFailed?
    ensures Snapshots(fs, k).status.error.src == Defaults[j].0
    ensures Snapshots(fs, k).status.error.dst == Defaults[j].1
  {
    if Snapshots(fs, k - 1).status.Fail? {
      j := SnapshotsFailure(fs, k - 1);
    } else {
      j := k - 1;
    }
  }

  /** Step 3 keeps the fault sets. */
  lemma {:induction false} ProcessFaults(fs: FileSystem, vars: P.VarMap, dec: Decoders, k: nat)
    requires k <= |Targets|
    ensures SameFaults(fs, Process(fs, vars, dec, k).fs)
  {
    if k > 0 {
      ProcessFaults(fs, vars, dec, k - 1);
      var prev := Process(fs, vars, dec, k - 1);
      if prev.status.Pass? {
        TargetFrame(prev.fs, vars, dec, Targets[k - 1]);
      }
    }
  }

  /** Step 3 after `k` targets has written only backups of those targets. */
  lemma {:induction false} ProcessFrame(fs: FileSystem, vars: P.VarMap, dec: Decoders, k: nat, n: string)
    requires k <= |Targets|
    requires forall j :: 0 <= j < k ==> !IsBackupOf(n, Targets[j])
    ensures Unchanged(fs, Process(fs, vars, dec, k).fs, n)
  {
    if k > 0 {
      ProcessFrame(fs, vars, dec, k - 1, n);
      var prev := Process(fs, vars, dec, k - 1);
      if prev.status.Pass? {
        var name := Targets[k - 1];
        TargetFrame(prev.fs, vars, dec, name);
        assert n != NewBackup(prev.fs, name);
      }
    }
  }

  /** The targets before the `k`-th one leave it, and the number of its next backup, alone. */
  lemma ProcessBeforeTarget(fs: FileSystem, vars: P.VarMap, dec: Decoders, k: nat)
    requires 0 < k <= |Targets|
    ensures Unchanged(fs, Process(fs, vars, dec, k - 1).fs, Targets[k - 1])
    ensures NewBackup(Process(fs, vars, dec, k - 1).fs, Targets[k - 1]) == NewBackup(fs, Targets[k - 1])
  {
    var prev := Process(fs, vars, dec, k - 1);
    var name := Targets[k - 1];
    NameClasses(name);
    ProcessFrame(fs, vars, dec, k - 1, name);
    forall n | IsBackupOf(n, name)
      ensures Unchanged(fs, prev.fs, n)
    {
      NameClasses(n);
      ProcessFrame(fs, vars, dec, k - 1, n);
    }
    NewBackupUnaffected(fs, prev.fs, name);
  }

  /** When step 3 has passed `k` targets, target `j` among them has a new backup holding its substituted, valid text. */
  lemma {:induction false} ProcessWritten(fs: FileSystem, vars: P.VarMap, dec: Decoders, k: nat, j: nat)
    requires j < k <= |Targets|
    requires Process(fs, vars, dec, k).status.Pass?
    ensures Targets[j] in fs.files
    ensures NewBackup(fs, Targets[j]) in Process(fs, vars, dec, k).fs.files
    ensures Process(fs, vars, dec, k).fs.files[NewBackup(fs, Targets[j])] == P.Substitute(fs.files[Targets[j]], vars)
    ensures dec.validYaml(P.Substitute(fs.files[Targets[j]], vars))
  {
    var prev := Process(fs, vars, dec, k - 1);
    var name := Targets[k - 1];
    ProcessBeforeTarget(fs, vars, dec, k);
    TargetFrame(prev.fs, vars, dec, name);
    if j < k - 1 {
      ProcessWritten(fs, vars, dec, k - 1, j);
      TargetFrame(fs, vars, dec, Targets[j]);
      NameClasses(NewBackup(fs, name));
      assert NewBackup(fs, Targets[j]) != NewBackup(prev.fs, name);
    }
  }

  /** A failed step 3 failed on one target, after the targets before it had passed, and wrote nothing for it. */
  lemma {:induction false} ProcessFailure(fs: FileSystem, vars: P.VarMap, dec: Decoders, k: nat) returns (j: nat)
    requires k <= |Targets|
    requires Process(fs, vars, dec, k).status.Fail?
    ensures j < k && Process(fs, vars, dec, j).status.Pass?
    ensures Process(fs, vars, dec, k).fs == Process(fs, vars, dec, j).fs
    ensures Process(fs, vars, dec, k).status == ProcessTarget(Process(fs, vars, dec, j).fs, vars, dec, Targets[j]).status
    ensures Process(fs, vars, dec, k).status.error.InvalidYaml? ==> Process(fs, vars, dec, k).status.error.name == Targets[j]
  {
    var prev := Process(fs, vars, dec, k - 1);
    if prev.status.Fail? {
      assert Process(fs, vars, dec, k) == prev;
      j := ProcessFailure(fs, vars, dec, k - 1);
    } else {
      assert Process(fs, vars, dec, k) == ProcessTarget(prev.fs, vars, dec, Targets[k - 1]);
      TargetInvalidYamlName(prev.fs, vars, dec, Targets[k - 1]);
      j := k - 1;
    }
  }

  /** An invalid-YAML failure of one target names that target. */
  lemma TargetInvalidYamlName(fs: FileSystem, vars: P.VarMap, dec: Decoders, name: string)
    ensures var st := ProcessTarget(fs, vars, dec, name).status;
      st.Fail? && st.error.InvalidYaml? ==> st.error.name == name
  {
  }

  /** Step 4 writes only the new backup of `variables.json`. */
  lemma BackupVarsFrame(fs: FileSystem)
    ensures SameFaults(fs, BackupVars(fs).fs)
    ensures forall n :: n != NewBackup(fs, VarsFile) ==> Unchanged(fs, BackupVars(fs).fs, n)
    ensures IsBackupOf(NewBackup(fs, VarsFile), VarsFile)
    ensures BackupVars(fs).status.Pass? ==>
      (VarsFile in fs.files && BackupVars(fs).fs.files[NewBackup(fs, VarsFile)] == fs.files[VarsFile])
  {
    B.ParseBackupName(VarsFile, B.FreeIndex(fs.files.Keys, VarsFile));
  }

  /**
   * `apply-vars` writes nothing but the three snapshots and numbered backups
   * of the three managed files; in particular the working files themselves
   * are never modified, whatever happens.
   */
  lemma ApplyVarsFrame(fs: FileSystem, dec: Decoders)
    ensures SameFaults(fs, ApplyVarsSpec(fs, dec).fs)
    ensures forall n :: !IsSnapshotName(n) && !IsBackupName(n) ==> Unchanged(fs, ApplyVarsSpec(fs, dec).fs, n)
    ensures forall n :: n in {ValuesFile, TagFile, VarsFile} ==> Unchanged(fs, ApplyVarsSpec(fs, dec).fs, n)
  {
    SnapshotsFrame(fs, |Defaults|);
    var snap := Snapshots(fs, |Defaults|);
    if snap.status.Pass? && Read(snap.fs, VarsFile).Success? && dec.parseVars(Read(snap.fs, VarsFile).value).Some? {
      var vars := dec.parseVars(Read(snap.fs, VarsFile).value).value;
      ProcessFaults(snap.fs, vars, dec, |Targets|);
      var sub := Process(snap.fs, vars, dec, |Targets|);
      if sub.status.Pass? {
        BackupVarsFrame(sub.fs);
      }
      forall n | !IsSnapshotName(n) && !IsBackupName(n)
        ensures Unchanged(fs, ApplyVarsSpec(fs, dec).fs, n)
      {
        ProcessFrame(snap.fs, vars, dec, |Targets|, n);
      }
    }
    forall n | n in {ValuesFile, TagFile, VarsFile}
      ensures !IsSnapshotName(n) && !IsBackupName(n)
    {
      NameClasses(n);
    }
  }

  /** Step 1 does not change which backup number a managed file gets next. */
  lemma SnapshotsKeepNewBackup(fs: FileSystem, name: string)
    requires name in {ValuesFile, TagFile, VarsFile}
    ensures NewBackup(Snapshots(fs, |Defaults|).fs, name) == NewBackup(fs, name)
  {
    SnapshotsFrame(fs, |Defaults|);
    forall n | IsBackupOf(n, name)
      ensures Unchanged(fs, Snapshots(fs, |Defaults|).fs, n)
    {
      NameClasses(n);
    }
    NewBackupUnaffected(fs, Snapshots(fs, |Defaults|).fs, name);
  }

  /** Step 3 leaves `variables.json` and its backups alone. */
  lemma ProcessKeepsVars(fs: FileSystem, vars: P.VarMap, dec: Decoders)
    ensures Unchanged(fs, Process(fs, vars, dec, |Targets|).fs, VarsFile)
    ensures forall n :: IsBackupOf(n, VarsFile) ==> Unchanged(fs, Process(fs, vars, dec, |Targets|).fs, n)
    ensures NewBackup(Process(fs, vars, dec, |Targets|).fs, VarsFile) == NewBackup(fs, VarsFile)
  {
    NameClasses(VarsFile);
    ProcessFrame(fs, vars, dec, |Targets|, VarsFile);
    forall n | IsBackupOf(n, VarsFile)
      ensures Unchanged(fs, Process(fs, vars, dec, |Targets|).fs, n)
    {
      NameClasses(n);
      ProcessFrame(fs, vars, dec, |Targets|, n);
    }
    NewBackupUnaffected(fs, Process(fs, vars, dec, |Targets|).fs, VarsFile);
  }

  /** A successful run passed every step, in order, on the variables read from `variables.json`. */
  lemma ApplyVarsPassSteps(fs: FileSystem, dec: Decoders)
    requires ApplyVarsSpec(fs, dec).status.Pass?
    ensures Snapshots(fs, |Defaults|).status.Pass?
    ensures VarsFile in fs.files && dec.parseVars(fs.files[VarsFile]).Some?
    ensures var snap := Snapshots(fs, |Defaults|).fs;
      var vars := dec.parseVars(fs.files[VarsFile]).value;
      && Process(snap, vars, dec, |Targets|).status.Pass?
      && ApplyVarsSpec(fs, dec) == BackupVars(Process(snap, vars, dec, |Targets|).fs)
  {
    SnapshotsFrame(fs, |Defaults|);
    NameClasses(VarsFile);
    assert Unchanged(fs, Snapshots(fs, |Defaults|).fs, VarsFile);
  }

  /** A successful run leaves each snapshot holding the original of its file. */
  lemma ApplyVarsSuccessSnapshots(fs: FileSystem, dec: Decoders)
    requires ApplyVarsSpec(fs, dec).status.Pass?
    ensures forall j :: 0 <= j < |Defaults| ==>
      && Defaults[j].0 in fs.files
      && Defaults[j].1 in ApplyVarsSpec(fs, dec).fs.files
      && ApplyVarsSpec(fs, dec).fs.files[Defaults[j].1] == fs.files[Defaults[j].0]
  {
    ApplyVarsPassSteps(fs, dec);
    var snap := Snapshots(fs, |Defaults|).fs;
    var vars := dec.parseVars(fs.files[VarsFile]).value;
    var sub := Process(snap, vars, dec, |Targets|).fs;
    SnapshotsWritten(fs, |Defaults|);
    BackupVarsFrame(sub);
    forall j | 0 <= j < |Defaults|
      ensures Unchanged(snap, BackupVars(sub).fs, Defaults[j].1)
    {
      var d := Defaults[j].1;
      DefaultsDistinct();
      NameClasses(d);
      ProcessFrame(snap, vars, dec, |Targets|, d);
      NameClasses(NewBackup(sub, VarsFile));
      assert d != NewBackup(sub, VarsFile);
    }
  }

  /** A successful run leaves each target's next backup holding its substituted, valid text. */
  lemma ApplyVarsSuccessTargets(fs: FileSystem, dec: Decoders)
    requires ApplyVarsSpec(fs, dec).status.Pass?
    ensures VarsFile in fs.files && dec.parseVars(fs.files[VarsFile]).Some?
    ensures var vars := dec.parseVars(fs.files[VarsFile]).value;
      forall j :: 0 <= j < |Targets| ==>
        && Targets[j] in fs.files
        && NewBackup(fs, Targets[j]) in ApplyVarsSpec(fs, dec).fs.files
        && ApplyVarsSpec(fs, dec).fs.files[NewBackup(fs, Targets[j])] == P.Substitute(fs.files[Targets[j]], vars)
        && dec.validYaml(P.Substitute(fs.files[Targets[j]], vars))
  {
    ApplyVarsPassSteps(fs, dec);
    var snap := Snapshots(fs, |Defaults|).fs;
    var vars := dec.parseVars(fs.files[VarsFile]).value;
    var sub := Process(snap, vars, dec, |Targets|).fs;
    SnapshotsFrame(fs, |Defaults|);
    BackupVarsFrame(sub);
    forall j | 0 <= j < |Targets|
      ensures Unchanged(fs, snap, Targets[j])
      ensures NewBackup(snap, Targets[j]) == NewBackup(fs, Targets[j])
      ensures Unchanged(sub, BackupVars(sub).fs, NewBackup(snap, Targets[j]))
      ensures Targets[j] in snap.files && NewBackup(snap, Targets[j]) in sub.files
      ensures sub.files[NewBackup(snap, Targets[j])] == P.Substitute(snap.files[Targets[j]], vars)
      ensures dec.validYaml(P.Substitute(snap.files[Targets[j]], vars))
    {
      var t := Targets[j];
      ProcessWritten(snap, vars, dec, |Targets|, j);
      NameClasses(t);
      SnapshotsKeepNewBackup(fs, t);
      TargetFrame(snap, vars, dec, t);
      NameClasses(NewBackup(snap, t));
      NameClasses(NewBackup(sub, VarsFile));
    }
  }

  /** A successful run leaves the next backup of `variables.json` holding the variables applied. */
  lemma ApplyVarsSuccessVars(fs: FileSystem, dec: Decoders)
    requires ApplyVarsSpec(fs, dec).status.Pass?
    ensures VarsFile in fs.files
    ensures NewBackup(fs, VarsFile) in ApplyVarsSpec(fs, dec).fs.files
    ensures ApplyVarsSpec(fs, dec).fs.files[NewBackup(fs, VarsFile)] == fs.files[VarsFile]
  {
    ApplyVarsPassSteps(fs, dec);
    var snap := Snapshots(fs, |Defaults|).fs;
    var vars := dec.parseVars(fs.files[VarsFile]).value;
    SnapshotsFrame(fs, |Defaults|);
    NameClasses(VarsFile);
    assert Unchanged(fs, snap, VarsFile);
    ProcessKeepsVars(snap, vars, dec);
    SnapshotsKeepNewBackup(fs, VarsFile);
    BackupVarsFrame(Process(snap, vars, dec, |Targets|).fs);
  }

  /** `variables.json` gets a new backup only when the whole run succeeds. */
  lemma ApplyVarsBacksUpVarsLast(fs: FileSystem, dec: Decoders)
    requires ApplyVarsSpec(fs, dec).status.Fail?
    ensures forall n :: IsBackupOf(n, VarsFile) ==> Unchanged(fs, ApplyVarsSpec(fs, dec).fs, n)
  {
    SnapshotsFrame(fs, |Defaults|);
    var snap := Snapshots(fs, |Defaults|);
    forall n | IsBackupOf(n, VarsFile)
      ensures Unchanged(fs, ApplyVarsSpec(fs, dec).fs, n)
    {
      NameClasses(n);
      assert Unchanged(fs, snap.fs, n);
      if snap.status.Pass? && Read(snap.fs, VarsFile).Success? && dec.parseVars(Read(snap.fs, VarsFile).value).Some? {
        var vars := dec.parseVars(Read(snap.fs, VarsFile).value).value;
        ProcessKeepsVars(snap.fs, vars, dec);
      }
    }
  }

  /** A failed snapshot stops the run before any backup is written. */
  lemma ApplyVarsSnapshotFailure(fs: FileSystem, dec: Decoders)
    requires ApplyVarsSpec(fs, dec).status.Fail? && ApplyVarsSpec(fs, dec).status.error.SnapshotFailed?
    ensures forall n :: !IsSnapshotName(n) ==> Unchanged(fs, ApplyVarsSpec(fs, dec).fs, n)
  {
    SnapshotsFrame(fs, |Defaults|);
    var snap := Snapshots(fs, |Defaults|);
    if snap.status.Pass? && Read(snap.fs, VarsFile).Success? && dec.parseVars(Read(snap.fs, VarsFile).value).Some? {
      var vars := dec.parseVars(Read(snap.fs, VarsFile).value).value;
      var sub := Process(snap.fs, vars, dec, |Targets|);
      if sub.status.Fail? {
        var j := ProcessFailure(snap.fs, vars, dec, |Targets|);
      }
      assert false;
    }
  }

  /**
   * A target whose substituted text is not valid YAML stops the run: it gets
   * no new backup, and neither does `variables.json`.
   */
  lemma ApplyVarsStopsAtInvalidYaml(fs: FileSystem, dec: Decoders, name: string)
    requires ApplyVarsSpec(fs, dec).status == Fail(InvalidYaml(name))
    ensures name in Targets
    ensures forall n :: IsBackupOf(n, name) ==> Unchanged(fs, ApplyVarsSpec(fs, dec).fs, n)
  {
    SnapshotsFrame(fs, |Defaults|);
    var snap := Snapshots(fs, |Defaults|);
    if snap.status.Pass? && Read(snap.fs, VarsFile).Success? && dec.parseVars(Read(snap.fs, VarsFile).value).Some? {
      var vars := dec.parseVars(Read(snap.fs, VarsFile).value).value;
      var sub := Process(snap.fs, vars, dec, |Targets|);
      if sub.status.Fail? {
        var j := ProcessFailure(snap.fs, vars, dec, |Targets|);
        assert name == Targets[j];
        forall n | IsBackupOf(n, name)
          ensures Unchanged(fs, ApplyVarsSpec(fs, dec).fs, n)
        {
          NameClasses(n);
          assert Unchanged(fs, snap.fs, n);
          ProcessFrame(snap.fs, vars, dec, j, n);
        }
      } else {
        assert false;
      }
    } else if snap.status.Fail? {
      var j := SnapshotsFailure(fs, |Defaults|);
      assert false;
    } else {
      assert false;
    }
  }

  /** When step 1 passes, every snapshot source was read, and can still be read afterwards. */
  lemma {:induction false} SnapshotsReadSources(fs: FileSystem, k: nat)
    requires k <= |Defaults|
    requires Snapshots(fs, k).status.Pass?
    ensures forall j :: 0 <= j < k ==> Read(Snapshots(fs, k).fs, Defaults[j].0).Success?
  {
    if k > 0 {
      var prev := Snapshots(fs, k - 1);
      assert prev.status.Pass?;
      SnapshotsReadSources(fs, k - 1);
      DefaultsDistinct();
      var (src, dst) := Defaults[k - 1];
      assert Copy(prev.fs, src, dst).Success?;
      var next := Snapshots(fs, k).fs;
      assert next == prev.fs.(files := prev.fs.files[dst := prev.fs.files[src]]);
      forall j | 0 <= j < k
        ensures Read(next, Defaults[j].0).Success?
      {
        assert Defaults[j].0 != dst;
      }
    }
  }

  /** A target that can be read is not reported unreadable. */
  lemma TargetReadSucceeds(fs: FileSystem, vars: P.VarMap, dec: Decoders, name: string)
    requires Read(fs, name).Success?
    ensures ProcessTarget(fs, vars, dec, name).status.Fail? ==> !ProcessTarget(fs, vars, dec, name).status.error.ReadTargetFailed?
  {
  }

  /** With every target readable at the start, step 3 never fails to read one. */
  lemma ProcessReadsTargets(fs: FileSystem, vars: P.VarMap, dec: Decoders, k: nat)
    requires k <= |Targets|
    requires forall j :: 0 <= j < |Targets| ==> Read(fs, Targets[j]).Success?
    ensures Process(fs, vars, dec, k).status.Fail? ==> !Process(fs, vars, dec, k).status.error.ReadTargetFailed?
  {
    if Process(fs, vars, dec, k).status.Fail? {
      var j := ProcessFailure(fs, vars, dec, k);
      var name := Targets[j];
      NameClasses(name);
      ProcessFrame(fs, vars, dec, j, name);
      ProcessFaults(fs, vars, dec, j);
      TargetReadSucceeds(Process(fs, vars, dec, j).fs, vars, dec, name);
    }
  }

  /**
   * The second reads of `apply-vars` never fail: `variables.json` and the two
   * values files were read when they were snapshotted, and nothing since has
   * changed them or which names can be read.
   */
  lemma ApplyVarsRereadsSucceed(fs: FileSystem, dec: Decoders)
    ensures var r := ApplyVarsSpec(fs, dec);
      r.status.Fail? ==> !r.status.error.ReadVarsFailed? && !r.status.error.ReadTargetFailed?
  {
    var snap := Snapshots(fs, |Defaults|);
    if snap.status.Fail? {
      var _ := SnapshotsFailure(fs, |Defaults|);
    } else {
      SnapshotsReadSources(fs, |Defaults|);
      assert Defaults[2].0 == VarsFile && Defaults[0].0 == Targets[0] && Defaults[1].0 == Targets[1];
      assert Read(snap.fs, VarsFile).Success?;
      match dec.parseVars(snap.fs.files[VarsFile])
      case None =>
        assert ApplyVarsSpec(fs, dec) == Run(snap.fs, Fail(BadVariables));
      case Some(vars) =>
        ProcessReadsTargets(snap.fs, vars, dec, |Targets|);
        var subst := Process(snap.fs, vars, dec, |Targets|);
        if subst.status.Fail? {
          var _ := ProcessFailure(snap.fs, vars, dec, |Targets|);
        }
        assert ApplyVarsSpec(fs, dec) == if subst.status.Fail? then subst else BackupVars(subst.fs);
    }
  }
}
