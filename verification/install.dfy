/**
 * The `install` command on a chart directory: copy the latest numbered backup
 * of each values file over the working file, merge the two YAML documents
 * (top-level keys of the tag file win), write the merged document to
 * `values.yaml` and hand it to Helm. Whatever happens, a deferred step copies
 * the three `.default` snapshots back over the working files before the
 * command returns.
 */
module Install {
  import opened Results
  import opened Files
  import B = Backup
  import AV = ApplyVars

  /** A YAML value as `yaml.v3` decodes it into `interface{}`. */
  datatype Node =
    | Scalar(text: string)
    | Mapping(fields: map<string, Node>)
    | Sequence(items: seq<Node>)

  /** A decoded values file: `map[string]interface{}`. */
  type Doc = map<string, Node>

  /** What `yaml.Unmarshal` leaves in a `map[string]interface{}`: an error, a nil map (empty or null document), or a map. */
  datatype Decoded = Malformed | Nil | Document(doc: Doc)

  /** The entries one sees ranging over a decoded map; a nil map has none. */
  function Entries(d: Decoded): (m: Doc)
    ensures d.Document? ==> m == d.doc
    ensures !d.Document? ==> m == map[]
  {
    if d.Document? then d.doc else map[]
  }

  /** The release Helm is asked to install: name, namespace and the dry-run flag. */
  datatype Release = Release(name: string, namespace: string, dryRun: bool)

  /**
   * The libraries `install` calls, which are not part of this model: YAML
   * decoding and encoding, and Helm (configuration, chart loading from the
   * directory, and the install itself).
   */
  datatype Libraries = Libraries(
    parseYaml: string -> Decoded,
    marshal: Doc -> Option<string>,
    deploy: (map<string, string>, Release, Doc) -> Outcome<string>)

  datatype InstallError =
    | BackupMissing(missing: B.BackupError)
    | RestoreBackupFailed(src: string, dst: string, cause: IoError)
    | ReadFailed(name: string, cause: IoError)
    | UnmarshalFailed(name: string)
    | MergePanic
    | MarshalFailed
    | WriteMergedFailed(cause: IoError)
    | DeployFailed(message: string)

  /**
   * The merge loop: every entry of the tag map is assigned into the base map,
   * replacing a value under the same top-level key whatever its shape. A nil
   * base map cannot be assigned into: the first assignment panics (`None`).
   * With nothing to assign, a nil base stays empty.
   */
  method MergeValues(base: Decoded, tag: Doc) returns (r: Option<Doc>)
    requires !base.Malformed?
    ensures r.None? <==> base.Nil? && tag != map[]
    ensures r.Some? ==> r.value.Keys == Entries(base).Keys + tag.Keys
    ensures r.Some? ==> forall k :: k in tag ==> r.value[k] == tag[k]
    ensures r.Some? ==> forall k :: k in Entries(base) && k !in tag ==> r.value[k] == Entries(base)[k]
  {
    var merged := Entries(base);
    var rest := tag.Keys;
    while rest != {}
      invariant rest <= tag.Keys
      invariant base.Nil? ==> rest == tag.Keys
      invariant merged.Keys == Entries(base).Keys + (tag.Keys - rest)
      invariant forall k :: k in tag && k !in rest ==> merged[k] == tag[k]
      invariant forall k :: k in Entries(base) && (k !in tag || k in rest) ==> merged[k] == Entries(base)[k]
      decreases rest
    {
      var k :| k in rest;
      if base.Nil? {
        return None;
      }
      merged := merged[k := tag[k]];
      rest := rest - {k};
    }
    r := Some(merged);
  }

  /** The merge loop's three properties determine the result: it is the right-biased union. */
  lemma MergeIsUnion(base: Doc, tag: Doc, m: Doc)
    requires m.Keys == base.Keys + tag.Keys
    requires forall k :: k in tag ==> m[k] == tag[k]
    requires forall k :: k in base && k !in tag ==> m[k] == base[k]
    ensures m == base + tag
  {
  }

  /** The merge is shallow: a nested mapping in the tag file replaces the base one whole. */
  method ShallowMerge() returns (r: Option<Doc>)
    ensures r == Some(map["image" := Mapping(map["tag" := Scalar("2.0")])])
  {
    var base := map["image" := Mapping(map["repo" := Scalar("nginx"), "tag" := Scalar("1.0")])];
    var tag := map["image" := Mapping(map["tag" := Scalar("2.0")])];
    r := MergeValues(Document(base), tag);
    MergeIsUnion(base, tag, r.value);
    assert base + tag == map["image" := Mapping(map["tag" := Scalar("2.0")])];
  }

  /** Keys of both files survive; the tag's value wins on a shared key. */
  method MergeExample() returns (r: Option<Doc>)
    ensures r == Some(map["a" := Scalar("1"), "b" := Scalar("9"), "c" := Scalar("3")])
  {
    var base := map["a" := Scalar("1"), "b" := Scalar("2")];
    var tag := map["b" := Scalar("9"), "c" := Scalar("3")];
    r := MergeValues(Document(base), tag);
    MergeIsUnion(base, tag, r.value);
    assert base + tag == map["a" := Scalar("1"), "b" := Scalar("9"), "c" := Scalar("3")];
  }

  /** The deferred copies, in this order; each failure is ignored. */
  const RestorePairs: seq<(string, string)> := [
    ("values.default", AV.ValuesFile),
    ("values-tag.default", AV.TagFile),
    ("variables.default", AV.VarsFile)
  ]

  /** The three working files. */
  predicate IsWorkingName(n: string) {
    n == AV.ValuesFile || n == AV.TagFile || n == AV.VarsFile
  }

  /** The deferred restore copies each snapshot back to the file `apply-vars` took it from. */
  lemma RestoreUndoesSnapshots()
    ensures |RestorePairs| == |AV.Defaults|
    ensures forall i :: 0 <= i < |RestorePairs| ==> RestorePairs[i] == (AV.Defaults[i].1, AV.Defaults[i].0)
  {
  }

  /** The first `k` deferred copies, each one skipped when it fails. */
  function Restored(fs: FileSystem, k: nat): FileSystem
    requires k <= |RestorePairs|
  {
    if k == 0 then fs
    else
      var prev := Restored(fs, k - 1);
      var (src, dst) := RestorePairs[k - 1];
      match Copy(prev, src, dst)
      case Failure(_) => prev
      case Success(next) => next
  }

  /** `restoreDefaults`: a best-effort loop over the pairs. */
  method RestoreDefaults(fs: FileSystem) returns (out: FileSystem)
    ensures out == Restored(fs, |RestorePairs|)
  {
    out := fs;
    var i := 0;
    while i < |RestorePairs|
      invariant 0 <= i <= |RestorePairs|
      invariant out == Restored(fs, i)
    {
      var (src, dst) := RestorePairs[i];
      match Copy(out, src, dst) {
        case Failure(_) =>
        case Success(next) =>
          out := next;
      }
      i := i + 1;
    }
  }

  /** Copies `a` to `k` of the deferred restore leave alone every name they do not write. */
  lemma {:induction false} RestoredBetween(fs: FileSystem, a: nat, k: nat, n: string)
    requires a <= k <= |RestorePairs|
    requires forall j :: a <= j < k ==> n != RestorePairs[j].1
    ensures Unchanged(Restored(fs, a), Restored(fs, k), n)
    ensures SameFaults(Restored(fs, a), Restored(fs, k))
    decreases k
  {
    if k > a {
      RestoredBetween(fs, a, k - 1, n);
    }
  }

  /** The deferred restore writes only the working files and keeps the fault sets. */
  lemma RestoreFrame(fs: FileSystem)
    ensures SameFaults(fs, Restored(fs, |RestorePairs|))
    ensures forall n :: !IsWorkingName(n) ==> Unchanged(fs, Restored(fs, |RestorePairs|), n)
  {
    RestoredBetween(fs, 0, |RestorePairs|, "");
    forall n | !IsWorkingName(n)
      ensures Unchanged(fs, Restored(fs, |RestorePairs|), n)
    {
      RestoredBetween(fs, 0, |RestorePairs|, n);
    }
  }

  /**
   * Each working file ends up holding its snapshot when the snapshot can be
   * read and the working file written, and is left alone otherwise.
   */
  lemma RestoreEffect(fs: FileSystem, i: nat)
    requires i < |RestorePairs|
    ensures var (src, dst) := RestorePairs[i];
      if Read(fs, src).Success? && dst !in fs.unwritable
      then dst in Restored(fs, |RestorePairs|).files && Restored(fs, |RestorePairs|).files[dst] == fs.files[src]
      else Unchanged(fs, Restored(fs, |RestorePairs|), dst)
  {
    var (src, dst) := RestorePairs[i];
    RestoredBetween(fs, 0, i, src);
    RestoredBetween(fs, 0, i, dst);
    RestoredBetween(fs, i + 1, |RestorePairs|, dst);
  }

  /**
   * Steps 2 to 7 on the directory after the backups have been copied into
   * place. They write only `values.yaml`, never report a missing backup, and
   * fail to write the merge only when `values.yaml` cannot be written.
   */
  function MergeAndDeploy(fs: FileSystem, lib: Libraries, rel: Release): (r: Run<InstallError>)
    ensures SameFaults(fs, r.fs)
    ensures forall n :: n != AV.ValuesFile ==> Unchanged(fs, r.fs, n)
    ensures r.status.Fail? ==> !r.status.error.BackupMissing?
    ensures r.status.Fail? && r.status.error.WriteMergedFailed? ==> AV.ValuesFile in fs.unwritable
  {
    match Read(fs, AV.ValuesFile)
    case Failure(e) => Run(fs, Fail(ReadFailed(AV.ValuesFile, e)))
    case Success(baseText) =>
      match Read(fs, AV.TagFile)
      case Failure(e) => Run(fs, Fail(ReadFailed(AV.TagFile, e)))
      case Success(tagText) =>
        var base := lib.parseYaml(baseText);
        var tag := lib.parseYaml(tagText);
        if base.Malformed? then Run(fs, Fail(UnmarshalFailed(AV.ValuesFile)))
        else if tag.Malformed? then Run(fs, Fail(UnmarshalFailed(AV.TagFile)))
        else if base.Nil? && Entries(tag) != map[] then Run(fs, Fail(MergePanic))
        else
          var merged := Entries(base) + Entries(tag);
          match lib.marshal(merged)
          case None => Run(fs, Fail(MarshalFailed))
          case Some(text) =>
            match Write(fs, AV.ValuesFile, text)
            case Failure(e) => Run(fs, Fail(WriteMergedFailed(e)))
            case Success(written) =>
              match lib.deploy(written.files, rel, merged)
              case Fail(msg) => Run(written, Fail(DeployFailed(msg)))
              case Pass => Run(written, Pass)
  }

  /**
   * The body of `install`, up to the point where it returns. Writing the
   * merged `values.yaml` never fails: the backup copy before it wrote the
   * same name.
   */
  ghost function InstallSteps(fs: FileSystem, lib: Libraries, rel: Release): (r: Run<InstallError>)
    ensures r.status.Fail? ==> !r.status.error.WriteMergedFailed?
  {
    match B.LatestBackup(fs.files.Keys, AV.ValuesFile)
    case Failure(e) => Run(fs, Fail(BackupMissing(e)))
    case Success(valsBak) =>
      match B.LatestBackup(fs.files.Keys, AV.TagFile)
      case Failure(e) => Run(fs, Fail(BackupMissing(e)))
      case Success(tagBak) =>
        match Copy(fs, valsBak, AV.ValuesFile)
        case Failure(e) => Run(fs, Fail(RestoreBackupFailed(valsBak, AV.ValuesFile, e)))
        case Success(fs1) =>
          match Copy(fs1, tagBak, AV.TagFile)
          case Failure(e) => Run(fs1, Fail(RestoreBackupFailed(tagBak, AV.TagFile, e)))
          case Success(fs2) => MergeAndDeploy(fs2, lib, rel)
  }

  /**
   * The whole command: the body, then the deferred restore, whatever the body
   * returned. The outcome is the body's: the restore ignores its own
   * failures.
   */
  ghost function InstallSpec(fs: FileSystem, lib: Libraries, rel: Release): (r: Run<InstallError>)
    ensures r.status == InstallSteps(fs, lib, rel).status
  {
    var body := InstallSteps(fs, lib, rel);
    Run(Restored(body.fs, |RestorePairs|), body.status)
  }

  /** `os.ReadDir`: the names in the directory, in some order. */
  method ListDir(fs: FileSystem) returns (entries: seq<string>)
    ensures B.Listed(entries) == fs.files.Keys
  {
    entries := [];
    var rest := fs.files.Keys;
    while rest != {}
      invariant B.Listed(entries) + rest == fs.files.Keys
      decreases rest
    {
      var e :| e in rest;
      entries := entries + [e];
      rest := rest - {e};
    }
  }

  /** The body of `install` as the source runs it. */
  method InstallBody(fs: FileSystem, lib: Libraries, rel: Release) returns (out: FileSystem, status: Outcome<InstallError>)
    ensures Run(out, status) == InstallSteps(fs, lib, rel)
  {
    out := fs;
    // 1) find and copy the latest backups
    var entries := ListDir(fs);
    var valsBak: string;
    var tagBak: string;
    var found := B.FindLatestBackup(entries, AV.ValuesFile);
    match found {
      case Failure(e) =>
        status := Fail(BackupMissing(e));
        return;
      case Success(name) =>
        valsBak := name;
    }
    found := B.FindLatestBackup(entries, AV.TagFile);
    match found {
      case Failure(e) =>
        status := Fail(BackupMissing(e));
        return;
      case Success(name) =>
        tagBak := name;
    }
    match Copy(out, valsBak, AV.ValuesFile) {
      case Failure(e) =>
        status := Fail(RestoreBackupFailed(valsBak, AV.ValuesFile, e));
        return;
      case Success(next) =>
        out := next;
    }
    match Copy(out, tagBak, AV.TagFile) {
      case Failure(e) =>
        status := Fail(RestoreBackupFailed(tagBak, AV.TagFile, e));
        return;
      case Success(next) =>
        out := next;
    }

    // 2) merge the two documents
    var baseText: string;
    var tagText: string;
    match Read(out, AV.ValuesFile) {
      case Failure(e) =>
        status := Fail(ReadFailed(AV.ValuesFile, e));
        return;
      case Success(text) =>
        baseText := text;
    }
    match Read(out, AV.TagFile) {
      case Failure(e) =>
        status := Fail(ReadFailed(AV.TagFile, e));
        return;
      case Success(text) =>
        tagText := text;
    }
    var base := lib.parseYaml(baseText);
    if base.Malformed? {
      status := Fail(UnmarshalFailed(AV.ValuesFile));
      return;
    }
    var tag := lib.parseYaml(tagText);
    if tag.Malformed? {
      status := Fail(UnmarshalFailed(AV.TagFile));
      return;
    }
    var merged: Doc;
    var result := MergeValues(base, Entries(tag));
    match result {
      case None =>
        status := Fail(MergePanic);
        return;
      case Some(m) =>
        MergeIsUnion(Entries(base), Entries(tag), m);
        merged := m;
    }
    var mergedText: string;
    match lib.marshal(merged) {
      case None =>
        status := Fail(MarshalFailed);
        return;
      case Some(text) =>
        mergedText := text;
    }

    // 4) overwrite values.yaml with the merged document
    match Write(out, AV.ValuesFile, mergedText) {
      case Failure(e) =>
        status := Fail(WriteMergedFailed(e));
        return;
      case Success(next) =>
        out := next;
    }

    // 5-7) Helm
    match lib.deploy(out.files, rel, merged) {
      case Fail(msg) =>
        status := Fail(DeployFailed(msg));
      case Pass =>
        status := Pass;
    }
  }

  /** `install`: the body, then the deferred `restoreDefaults`. */
  method Install(fs: FileSystem, lib: Libraries, rel: Release) returns (out: FileSystem, status: Outcome<InstallError>)
    ensures Run(out, status) == InstallSpec(fs, lib, rel)
  {
    out, status := InstallBody(fs, lib, rel);
    out := RestoreDefaults(out);
  }

  /** No entry of the directory has the backup form for `name`. */
  predicate HasNoBackups(fs: FileSystem, name: string) {
    forall e :: e in fs.files ==> B.ParseSuffix(e, name).None?
  }

  /**
   * `install` stops on a missing backup exactly when one of the two values
   * files has no numbered backup at all; the deferred restore still runs.
   */
  lemma InstallWithoutBackups(fs: FileSystem, lib: Libraries, rel: Release)
    ensures var r := InstallSpec(fs, lib, rel);
      r.status.Fail? && r.status.error.BackupMissing?
      <==> HasNoBackups(fs, AV.ValuesFile) || HasNoBackups(fs, AV.TagFile)
    ensures var r := InstallSpec(fs, lib, rel);
      r.status.Fail? && r.status.error.BackupMissing? ==> r.fs == Restored(fs, |RestorePairs|)
  {
    B.LatestBackupFailsIffNone(fs.files.Keys, AV.ValuesFile);
    B.LatestBackupFailsIffNone(fs.files.Keys, AV.TagFile);
    var vals := B.LatestBackup(fs.files.Keys, AV.ValuesFile);
    var tags := B.LatestBackup(fs.files.Keys, AV.TagFile);
    var body := InstallSteps(fs, lib, rel);
    if vals.Failure? {
      assert body == Run(fs, Fail(BackupMissing(vals.error)));
    } else if tags.Failure? {
      assert body == Run(fs, Fail(BackupMissing(tags.error)));
    } else {
      match Copy(fs, vals.value, AV.ValuesFile)
      case Failure(_) =>
      case Success(fs1) =>
        match Copy(fs1, tags.value, AV.TagFile)
        case Failure(_) =>
        case Success(fs2) =>
          assert body == MergeAndDeploy(fs2, lib, rel);
    }
  }

  /** The body writes only `values.yaml` and `values-tag.yaml`. */
  lemma InstallStepsFrame(fs: FileSystem, lib: Libraries, rel: Release)
    ensures SameFaults(fs, InstallSteps(fs, lib, rel).fs)
    ensures forall n :: n != AV.ValuesFile && n != AV.TagFile ==> Unchanged(fs, InstallSteps(fs, lib, rel).fs, n)
  {
    var vals := B.LatestBackup(fs.files.Keys, AV.ValuesFile);
    var tags := B.LatestBackup(fs.files.Keys, AV.TagFile);
    var body := InstallSteps(fs, lib, rel);
    if vals.Failure? || tags.Failure? {
      assert body.fs == fs;
    } else {
      match Copy(fs, vals.value, AV.ValuesFile)
      case Failure(_) =>
        assert body.fs == fs;
      case Success(fs1) =>
        match Copy(fs1, tags.value, AV.TagFile)
        case Failure(_) =>
          assert body.fs == fs1;
        case Success(fs2) =>
          assert body == MergeAndDeploy(fs2, lib, rel);
          forall n | n != AV.ValuesFile && n != AV.TagFile
            ensures Unchanged(fs, body.fs, n)
          {
            assert Unchanged(fs2, body.fs, n);
          }
    }
  }

  /** `install` writes nothing but the three working files, whatever happens. */
  lemma InstallFrame(fs: FileSystem, lib: Libraries, rel: Release)
    ensures SameFaults(fs, InstallSpec(fs, lib, rel).fs)
    ensures forall n :: !IsWorkingName(n) ==> Unchanged(fs, InstallSpec(fs, lib, rel).fs, n)
  {
    var body := InstallSteps(fs, lib, rel);
    var after := InstallSpec(fs, lib, rel).fs;
    assert after == Restored(body.fs, |RestorePairs|);
    InstallStepsFrame(fs, lib, rel);
    RestoreFrame(body.fs);
    forall n | !IsWorkingName(n)
      ensures Unchanged(fs, after, n)
    {
      assert Unchanged(fs, body.fs, n) && Unchanged(body.fs, after, n);
    }
  }

  /**
   * When the snapshots can be read and the working files written, `install`
   * leaves each working file holding its snapshot, whether it succeeded,
   * failed or panicked.
   */
  lemma InstallRestoresDefaults(fs: FileSystem, lib: Libraries, rel: Release)
    requires forall i :: 0 <= i < |RestorePairs| ==> Read(fs, RestorePairs[i].0).Success? && RestorePairs[i].1 !in fs.unwritable
    ensures forall i :: 0 <= i < |RestorePairs| ==>
      && RestorePairs[i].0 in fs.files
      && RestorePairs[i].1 in InstallSpec(fs, lib, rel).fs.files
      && InstallSpec(fs, lib, rel).fs.files[RestorePairs[i].1] == fs.files[RestorePairs[i].0]
  {
    var body := InstallSteps(fs, lib, rel).fs;
    var after := InstallSpec(fs, lib, rel).fs;
    assert after == Restored(body, |RestorePairs|);
    InstallStepsFrame(fs, lib, rel);
    RestoreUndoesSnapshots();
    AV.DefaultsDistinct();
    forall i | 0 <= i < |RestorePairs|
      ensures RestorePairs[i].0 in fs.files && RestorePairs[i].1 in after.files
      ensures after.files[RestorePairs[i].1] == fs.files[RestorePairs[i].0]
    {
      var (src, dst) := RestorePairs[i];
      assert AV.IsSnapshotName(src);
      AV.NameClasses(src);
      assert src != AV.ValuesFile && src != AV.TagFile;
      assert Unchanged(fs, body, src);
      assert Read(body, src).Success? && dst !in body.unwritable;
      RestoreEffect(body, i);
    }
  }

  /**
   * `apply-vars` followed by `install` leaves the three working files as they
   * were before `apply-vars`, provided the snapshots it wrote can be read back
   * and the working files can be written.
   */
  lemma ApplyVarsThenInstall(fs: FileSystem, dec: AV.Decoders, lib: Libraries, rel: Release)
    requires AV.ApplyVarsSpec(fs, dec).status.Pass?
    requires forall i :: 0 <= i < |AV.Defaults| ==> AV.Defaults[i].1 !in fs.unreadable && AV.Defaults[i].0 !in fs.unwritable
    ensures forall n :: IsWorkingName(n) ==>
      && n in fs.files
      && n in InstallSpec(AV.ApplyVarsSpec(fs, dec).fs, lib, rel).fs.files
      && InstallSpec(AV.ApplyVarsSpec(fs, dec).fs, lib, rel).fs.files[n] == fs.files[n]
  {
    var mid := AV.ApplyVarsSpec(fs, dec).fs;
    AV.ApplyVarsSuccessSnapshots(fs, dec);
    AV.ApplyVarsFrame(fs, dec);
    RestoreUndoesSnapshots();
    InstallRestoresDefaults(mid, lib, rel);
    forall n | IsWorkingName(n)
      ensures n in fs.files && n in InstallSpec(mid, lib, rel).fs.files
      ensures InstallSpec(mid, lib, rel).fs.files[n] == fs.files[n]
    {
      var i := if n == AV.ValuesFile then 0 else if n == AV.TagFile then 1 else 2;
      assert RestorePairs[i].1 == n && AV.Defaults[i].0 == n;
    }
  }

  /** A successful merge-and-deploy decoded both files and deployed their merge, with its text in `values.yaml`. */
  lemma MergeAndDeploySuccess(fs: FileSystem, lib: Libraries, rel: Release)
    requires MergeAndDeploy(fs, lib, rel).status.Pass?
    ensures AV.ValuesFile in fs.files && AV.TagFile in fs.files
    ensures var base := lib.parseYaml(fs.files[AV.ValuesFile]);
      var tag := lib.parseYaml(fs.files[AV.TagFile]);
      && !base.Malformed? && !tag.Malformed?
      && (base.Nil? ==> Entries(tag) == map[])
      && var merged := Entries(base) + Entries(tag);
      && lib.marshal(merged).Some?
      && exists files :: AV.ValuesFile in files && files[AV.ValuesFile] == lib.marshal(merged).value
           && lib.deploy(files, rel, merged) == Pass
  {
    var base := lib.parseYaml(fs.files[AV.ValuesFile]);
    var tag := lib.parseYaml(fs.files[AV.TagFile]);
    var merged := Entries(base) + Entries(tag);
    assert !base.Malformed? && !tag.Malformed?;
    assert lib.marshal(merged).Some?;
    var written := Write(fs, AV.ValuesFile, lib.marshal(merged).value).value;
    assert AV.ValuesFile in written.files && written.files[AV.ValuesFile] == lib.marshal(merged).value;
    assert lib.deploy(written.files, rel, merged) == Pass;
  }

  /** A successful body copied the latest backups into place and then merged and deployed. */
  lemma InstallStepsSuccess(fs: FileSystem, lib: Libraries, rel: Release)
    requires InstallSteps(fs, lib, rel).status.Pass?
    ensures B.LatestBackup(fs.files.Keys, AV.ValuesFile).Success?
    ensures B.LatestBackup(fs.files.Keys, AV.TagFile).Success?
    ensures var vb := B.LatestBackup(fs.files.Keys, AV.ValuesFile).value;
      var tb := B.LatestBackup(fs.files.Keys, AV.TagFile).value;
      && vb in fs.files && tb in fs.files
      && var fs2 := fs.(files := fs.files[AV.ValuesFile := fs.files[vb]][AV.TagFile := fs.files[tb]]);
      MergeAndDeploy(fs2, lib, rel).status.Pass?
  {
    var tb := B.LatestBackup(fs.files.Keys, AV.TagFile).value;
    B.LatestBackupIsMax(fs.files.Keys, AV.TagFile);
    var n :| tb == B.BackupName(AV.TagFile, n);
    B.ParseBackupName(AV.TagFile, n);
    AV.NameClasses(AV.ValuesFile);
    assert tb != AV.ValuesFile;
  }

  /**
   * A successful `install` used the latest backup of each values file, both
   * decoded, and deployed their merge, with the merged text in `values.yaml`
   * while Helm loaded the chart.
   */
  lemma InstallSuccess(fs: FileSystem, lib: Libraries, rel: Release)
    requires InstallSpec(fs, lib, rel).status.Pass?
    ensures B.LatestBackup(fs.files.Keys, AV.ValuesFile).Success?
    ensures B.LatestBackup(fs.files.Keys, AV.TagFile).Success?
    ensures var vb := B.LatestBackup(fs.files.Keys, AV.ValuesFile).value;
      var tb := B.LatestBackup(fs.files.Keys, AV.TagFile).value;
      && vb in fs.files && tb in fs.files
      && var base := lib.parseYaml(fs.files[vb]);
      var tag := lib.parseYaml(fs.files[tb]);
      && !base.Malformed? && !tag.Malformed?
      && (base.Nil? ==> Entries(tag) == map[])
      && var merged := Entries(base) + Entries(tag);
      && lib.marshal(merged).Some?
      && exists files :: AV.ValuesFile in files && files[AV.ValuesFile] == lib.marshal(merged).value
           && lib.deploy(files, rel, merged) == Pass
  {
    InstallStepsSuccess(fs, lib, rel);
    var vb := B.LatestBackup(fs.files.Keys, AV.ValuesFile).value;
    var tb := B.LatestBackup(fs.files.Keys, AV.TagFile).value;
    var fs2 := fs.(files := fs.files[AV.ValuesFile := fs.files[vb]][AV.TagFile := fs.files[tb]]);
    MergeAndDeploySuccess(fs2, lib, rel);
    assert fs2.files[AV.ValuesFile] == fs.files[vb];
  }
}
