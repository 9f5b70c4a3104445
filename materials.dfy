/** The learning-materials page: picking PDFs, uploading them to storage
    with a row per file in `learning_materials`, and deleting a material. */
module Materials {
  import opened Wrappers
  import Text
  import Seqs
  import opened Files

  /** A row of `learning_materials` as the page lists it. */
  datatype Material = Material(
    id: string, name: string, materialType: string, size: nat,
    createdAt: string, url: string, filePath: string)

  /** The object the page inserts for an uploaded file. */
  datatype Row = Row(userId: string, name: string, rowType: string, size: nat, url: string, filePath: string)

  /** The calls the page makes on the hosted storage bucket and table, in order. */
  datatype Effect =
    | StoreObject(path: string)
    | InsertRow(row: Row)
    | RemoveObject(path: string)
    | DeleteRow(id: string)

  // ---------------------------------------------------------------------
  // Storage paths
  // ---------------------------------------------------------------------

  /** `${timestamp}-${name.replace(/\s+/g, '-')}`. */
  function UniqueFileName(timestamp: nat, name: string): string {
    Text.NatToString(timestamp) + "-" + Text.ReplaceWhitespaceRuns(name, '-')
  }

  /** `${user.id}/${uniqueFileName}`. */
  function StoragePath(userId: string, timestamp: nat, name: string): string {
    userId + "/" + UniqueFileName(timestamp, name)
  }

  /** A file name is the timestamp's digits, a `-`, and the original name
      with each run of whitespace replaced by a single `-`; it holds no
      whitespace at all. */
  lemma UniqueFileNameShape(timestamp: nat, name: string)
    ensures var stamp, u := Text.NatToString(timestamp), UniqueFileName(timestamp, name);
      && |u| > |stamp| && u[..|stamp|] == stamp && u[|stamp|] == '-'
      && u[|stamp| + 1..] == Text.ReplaceWhitespaceRuns(name, '-')
      && !Text.HasWhitespace(u)
  {
    var stamp, rest := Text.NatToString(timestamp), Text.ReplaceWhitespaceRuns(name, '-');
    assert !Text.HasWhitespace(stamp) by {
      forall i | 0 <= i < |stamp|
        ensures !Text.IsWhitespace(stamp[i])
      {
        assert Text.IsDigit(stamp[i]);
      }
    }
    JoinedShape(stamp, rest);
  }

  /** Joining two strings without whitespace by a `-` gives a string
      without whitespace that splits back into the two. */
  lemma JoinedShape(stamp: string, rest: string)
    requires !Text.HasWhitespace(stamp)
    requires forall i :: 0 <= i < |rest| ==> rest[i] == '-' || !Text.IsWhitespace(rest[i])
    ensures var u := stamp + "-" + rest;
      && |u| > |stamp| && u[..|stamp|] == stamp && u[|stamp|] == '-'
      && u[|stamp| + 1..] == rest
      && !Text.HasWhitespace(u)
  {
    var u := stamp + "-" + rest;
    forall i | 0 <= i < |u|
      ensures !Text.IsWhitespace(u[i])
    {
      if i < |stamp| {
        assert u[i] == stamp[i];
      } else if i > |stamp| {
        assert u[i] == rest[i - |stamp| - 1];
      }
    }
  }

  /** The storage path is the user's id, a `/`, and the file name. */
  lemma StoragePathShape(userId: string, timestamp: nat, name: string)
    ensures var path := StoragePath(userId, timestamp, name);
      && path[..|userId| + 1] == userId + "/"
      && path[|userId| + 1..] == UniqueFileName(timestamp, name)
      && !Text.HasWhitespace(path[|userId| + 1..])
  {
    UniqueFileNameShape(timestamp, name);
    var path := StoragePath(userId, timestamp, name);
    assert path == (userId + "/") + UniqueFileName(timestamp, name);
  }

  /** Two uploads in different milliseconds never share a file name, and
      two uploads in the same millisecond share one exactly when their
      names agree up to whitespace runs. */
  lemma UniqueFileNameDeterminesTimestamp(t1: nat, n1: string, t2: nat, n2: string)
    requires UniqueFileName(t1, n1) == UniqueFileName(t2, n2)
    ensures t1 == t2
    ensures Text.ReplaceWhitespaceRuns(n1, '-') == Text.ReplaceWhitespaceRuns(n2, '-')
  {
    UniqueFileNameShape(t1, n1);
    UniqueFileNameShape(t2, n2);
    var s1, s2 := Text.NatToString(t1), Text.NatToString(t2);
    assert |s1| == |s2|;
    Text.NatToStringInjective(t1, t2);
  }

  /** So the same user never gets one storage path for two uploads made in
      different milliseconds. */
  lemma StoragePathsDifferAcrossTimestamps(userId: string, t1: nat, n1: string, t2: nat, n2: string)
    requires t1 != t2
    ensures StoragePath(userId, t1, n1) != StoragePath(userId, t2, n2)
  {
    StoragePathShape(userId, t1, n1);
    StoragePathShape(userId, t2, n2);
    if StoragePath(userId, t1, n1) == StoragePath(userId, t2, n2) {
      UniqueFileNameDeterminesTimestamp(t1, n1, t2, n2);
    }
  }

  // ---------------------------------------------------------------------
  // The upload loop
  // ---------------------------------------------------------------------

  /** What the hosted services answer for one file: the `Date.now()` reading
      taken for it, whether the storage upload succeeded and whether the row
      insert succeeded. */
  datatype FileReply = FileReply(timestamp: nat, stored: bool, inserted: bool)

  predicate Succeeded(reply: FileReply) {
    reply.stored && reply.inserted
  }

  /** The row inserted for `f` once it is stored at `path`. */
  function RowFor(userId: string, f: File, path: string, url: string): Row {
    Row(userId, f.name, "pdf", f.size, url, path)
  }

  /** The storage path of each file, from the timestamp read for it. */
  function Paths(userId: string, files: seq<File>, replies: seq<FileReply>): (r: seq<string>)
    requires |replies| == |files|
    ensures |r| == |files|
    ensures forall i :: 0 <= i < |files| ==> r[i] == StoragePath(userId, replies[i].timestamp, files[i].name)
  {
    seq(|files|, i requires 0 <= i < |files| => StoragePath(userId, replies[i].timestamp, files[i].name))
  }

  /** Two files of one upload whose replies carry different timestamps are
      stored under different paths, whatever their names. */
  lemma PathsDifferAcrossTimestamps(userId: string, files: seq<File>, replies: seq<FileReply>, i: nat, j: nat)
    requires |replies| == |files| && i < |files| && j < |files|
    requires replies[i].timestamp != replies[j].timestamp
    ensures Paths(userId, files, replies)[i] != Paths(userId, files, replies)[j]
  {
    StoragePathsDifferAcrossTimestamps(userId, replies[i].timestamp, files[i].name, replies[j].timestamp, files[j].name);
  }

  /** The calls made for one file stored at `path`: the upload, then (if it
      succeeded) the insert. */
  function FileEffects(userId: string, f: File, path: string, reply: FileReply, publicUrl: string -> string): seq<Effect>
  {
    if !reply.stored then [StoreObject(path)]
    else [StoreObject(path), InsertRow(RowFor(userId, f, path, publicUrl(path)))]
  }

  /** The calls made and whether the run reached the success notice. */
  datatype UploadRun = UploadRun(effects: seq<Effect>, ok: bool)

  /** The `try` block from file `i` on, file `j` going to `paths[j]`: a
      failed call throws, which ends the run. */
  function UploadFrom(userId: string, files: seq<File>, replies: seq<FileReply>, paths: seq<string>,
                      publicUrl: string -> string, i: nat): UploadRun
    requires |replies| == |files| == |paths| && i <= |files|
    decreases |files| - i
  {
    if i == |files| then UploadRun([], true)
    else
      var here := FileEffects(userId, files[i], paths[i], replies[i], publicUrl);
      if !Succeeded(replies[i]) then UploadRun(here, false)
      else
        var rest := UploadFrom(userId, files, replies, paths, publicUrl, i + 1);
        UploadRun(here + rest.effects, rest.ok)
  }

  /** The whole run, with the paths the page builds. */
  function Upload(userId: string, files: seq<File>, replies: seq<FileReply>, publicUrl: string -> string): UploadRun
    requires |replies| == |files|
  {
    UploadFrom(userId, files, replies, Paths(userId, files, replies), publicUrl, 0)
  }

  /** One pass of the loop body (lines 84-119): build the path, upload the
      file, and if that worked insert its row; `ok` is false where the body
      throws. */
  method UploadOne(userId: string, file: File, reply: FileReply, publicUrl: string -> string)
    returns (path: string, effects: seq<Effect>, ok: bool)
    ensures path == StoragePath(userId, reply.timestamp, file.name)
    ensures effects == FileEffects(userId, file, path, reply, publicUrl)
    ensures ok == Succeeded(reply)
  {
    path := StoragePath(userId, reply.timestamp, file.name);
    effects := [StoreObject(path)];
    if !reply.stored {
      return path, effects, false;
    }
    var url := publicUrl(path);
    effects := effects + [InsertRow(RowFor(userId, file, path, url))];
    if !reply.inserted {
      return path, effects, false;
    }
    ok := true;
  }

  /** Lines 83-120: the loop over the selected files. */
  method UploadAll(userId: string, files: seq<File>, replies: seq<FileReply>, publicUrl: string -> string)
    returns (effects: seq<Effect>, ok: bool)
    requires |replies| == |files|
    ensures UploadRun(effects, ok) == Upload(userId, files, replies, publicUrl)
  {
    ghost var paths := Paths(userId, files, replies);
    ghost var total := UploadFrom(userId, files, replies, paths, publicUrl, 0);
    effects := [];
    var i := 0;
    while i < |files|
      invariant i <= |files|
      invariant total.effects == effects + UploadFrom(userId, files, replies, paths, publicUrl, i).effects
      invariant total.ok == UploadFrom(userId, files, replies, paths, publicUrl, i).ok
    {
      ghost var rest := UploadFrom(userId, files, replies, paths, publicUrl, i + 1);
      UploadFromStep(userId, files, replies, paths, publicUrl, i);
      var path, step, stepOk := UploadOne(userId, files[i], replies[i], publicUrl);
      assert path == paths[i];
      ghost var before := effects;
      effects := effects + step;
      if !stepOk {
        assert step + [] == step;
        return effects, false;
      }
      assert before + (step + rest.effects) == effects + rest.effects;
      i := i + 1;
    }
    ok := true;
  }

  /** One file of the run: its calls, then (only if both succeeded) the
      rest of the run's. */
  lemma UploadFromStep(userId: string, files: seq<File>, replies: seq<FileReply>, paths: seq<string>,
                       publicUrl: string -> string, i: nat)
    requires |replies| == |files| == |paths| && i < |files|
    ensures UploadFrom(userId, files, replies, paths, publicUrl, i).effects ==
      FileEffects(userId, files[i], paths[i], replies[i], publicUrl)
      + (if Succeeded(replies[i]) then UploadFrom(userId, files, replies, paths, publicUrl, i + 1).effects else [])
    ensures UploadFrom(userId, files, replies, paths, publicUrl, i).ok ==
      (Succeeded(replies[i]) && UploadFrom(userId, files, replies, paths, publicUrl, i + 1).ok)
  {
    var here := FileEffects(userId, files[i], paths[i], replies[i], publicUrl);
    assert here + [] == here;
  }

  /** The run reaches the success notice exactly when every file from `i`
      on is both stored and inserted. */
  lemma {:induction false} UploadOkIffAllSucceed(userId: string, files: seq<File>, replies: seq<FileReply>,
                                                 paths: seq<string>, publicUrl: string -> string, i: nat)
    requires |replies| == |files| == |paths| && i <= |files|
    ensures UploadFrom(userId, files, replies, paths, publicUrl, i).ok
      <==> forall j :: i <= j < |files| ==> Succeeded(replies[j])
    decreases |files| - i
  {
    if i < |files| {
      UploadOkIffAllSucceed(userId, files, replies, paths, publicUrl, i + 1);
    }
  }

  /** A successful run stores every file at its path and inserts its row, in
      file order, each row carrying the file's name, type `pdf`, its size,
      the public URL and the path it was stored at. */
  lemma {:induction false} SuccessfulRunStoresEveryFile(userId: string, files: seq<File>, replies: seq<FileReply>,
                                                        paths: seq<string>, publicUrl: string -> string, i: nat)
    requires |replies| == |files| == |paths| && i <= |files|
    requires forall j :: i <= j < |files| ==> Succeeded(replies[j])
    ensures var es := UploadFrom(userId, files, replies, paths, publicUrl, i).effects;
      && |es| == 2 * (|files| - i)
      && forall j :: i <= j < |files| ==>
           && es[2 * (j - i)] == StoreObject(paths[j])
           && es[2 * (j - i) + 1] == InsertRow(Row(userId, files[j].name, "pdf", files[j].size, publicUrl(paths[j]), paths[j]))
    decreases |files| - i
  {
    if i < |files| {
      SuccessfulRunStoresEveryFile(userId, files, replies, paths, publicUrl, i + 1);
    }
  }

  /** A run stops at the first file whose upload or insert fails: every
      earlier file is stored and inserted, with nothing removed afterwards,
      the failing file
      gets only the calls it got, and no later file is touched. */
  lemma RunStopsAtFirstFailure(userId: string, files: seq<File>, replies: seq<FileReply>,
                                paths: seq<string>, publicUrl: string -> string, i: nat, k: nat)
    requires |replies| == |files| == |paths| && i <= k < |files|
    requires !Succeeded(replies[k]) && forall j :: i <= j < k ==> Succeeded(replies[j])
    ensures var r := UploadFrom(userId, files, replies, paths, publicUrl, i);
      && !r.ok
      && |r.effects| == 2 * (k - i) + (if replies[k].stored then 2 else 1)
      && r.effects[2 * (k - i)..] == FileEffects(userId, files[k], paths[k], replies[k], publicUrl)
      && forall j :: i <= j < k ==>
           && r.effects[2 * (j - i)] == StoreObject(paths[j])
           && r.effects[2 * (j - i) + 1] == InsertRow(RowFor(userId, files[j], paths[j], publicUrl(paths[j])))
  {
    FailingFileEndsRun(userId, files, replies, paths, publicUrl, i, k);
    EarlierFilesStored(userId, files, replies, paths, publicUrl, i, k);
  }

  /** The calls of the failing file close the run. */
  lemma {:induction false} FailingFileEndsRun(userId: string, files: seq<File>, replies: seq<FileReply>,
                                              paths: seq<string>, publicUrl: string -> string, i: nat, k: nat)
    requires |replies| == |files| == |paths| && i <= k < |files|
    requires !Succeeded(replies[k]) && forall j :: i <= j < k ==> Succeeded(replies[j])
    ensures var r := UploadFrom(userId, files, replies, paths, publicUrl, i);
      && !r.ok
      && |r.effects| == 2 * (k - i) + (if replies[k].stored then 2 else 1)
      && r.effects[2 * (k - i)..] == FileEffects(userId, files[k], paths[k], replies[k], publicUrl)
    decreases |files| - i
  {
    if i < k {
      FailingFileEndsRun(userId, files, replies, paths, publicUrl, i + 1, k);
      var here := FileEffects(userId, files[i], paths[i], replies[i], publicUrl);
      var rest := UploadFrom(userId, files, replies, paths, publicUrl, i + 1).effects;
      assert (here + rest)[2 * (k - i)..] == rest[2 * (k - (i + 1))..];
    }
  }

  /** `es` begins with the upload and then the insert of every file from
      `i` up to `k`, in file order. */
  predicate StoredAndInserted(es: seq<Effect>, userId: string, files: seq<File>, paths: seq<string>,
                              publicUrl: string -> string, i: nat, k: nat)
    requires i <= k <= |files| == |paths|
  {
    && |es| >= 2 * (k - i)
    && forall j :: i <= j < k ==>
         && es[2 * (j - i)] == StoreObject(paths[j])
         && es[2 * (j - i) + 1] == InsertRow(RowFor(userId, files[j], paths[j], publicUrl(paths[j])))
  }

  lemma StoredAndInsertedCons(rest: seq<Effect>, userId: string, files: seq<File>, paths: seq<string>,
                              publicUrl: string -> string, i: nat, k: nat)
    requires i < k <= |files| == |paths|
    requires StoredAndInserted(rest, userId, files, paths, publicUrl, i + 1, k)
    ensures StoredAndInserted([StoreObject(paths[i]), InsertRow(RowFor(userId, files[i], paths[i], publicUrl(paths[i])))] + rest,
                              userId, files, paths, publicUrl, i, k)
  {
    var es := [StoreObject(paths[i]), InsertRow(RowFor(userId, files[i], paths[i], publicUrl(paths[i])))] + rest;
    forall j | i <= j < k
      ensures es[2 * (j - i)] == StoreObject(paths[j])
      ensures es[2 * (j - i) + 1] == InsertRow(RowFor(userId, files[j], paths[j], publicUrl(paths[j])))
    {
      if j > i {
        assert es[2 * (j - i)] == rest[2 * (j - (i + 1))];
        assert es[2 * (j - i) + 1] == rest[2 * (j - (i + 1)) + 1];
      }
    }
  }

  /** Each file before the failing one gets its upload and then its insert,
      in file order. */
  lemma {:induction false} EarlierFilesStored(userId: string, files: seq<File>, replies: seq<FileReply>,
                                              paths: seq<string>, publicUrl: string -> string, i: nat, k: nat)
    requires |replies| == |files| == |paths| && i <= k < |files|
    requires forall j :: i <= j < k ==> Succeeded(replies[j])
    ensures StoredAndInserted(UploadFrom(userId, files, replies, paths, publicUrl, i).effects, userId, files, paths, publicUrl, i, k)
    decreases |files| - i
  {
    if i < k {
      EarlierFilesStored(userId, files, replies, paths, publicUrl, i + 1, k);
      UploadFromStep(userId, files, replies, paths, publicUrl, i);
      var rest := UploadFrom(userId, files, replies, paths, publicUrl, i + 1).effects;
      StoredAndInsertedCons(rest, userId, files, paths, publicUrl, i, k);
    }
  }

  /** Every insert comes right after the upload of the path its row names. */
  predicate InsertsFollowStores(es: seq<Effect>) {
    forall j :: 0 <= j < |es| && es[j].InsertRow? ==> j > 0 && es[j - 1] == StoreObject(es[j].row.filePath)
  }

  lemma InsertsFollowStoresConcat(a: seq<Effect>, b: seq<Effect>)
    requires InsertsFollowStores(a) && InsertsFollowStores(b)
    ensures InsertsFollowStores(a + b)
  {
    forall j | 0 <= j < |a + b| && (a + b)[j].InsertRow?
      ensures j > 0 && (a + b)[j - 1] == StoreObject((a + b)[j].row.filePath)
    {
      if j >= |a| {
        assert b[j - |a|] == (a + b)[j];
      }
    }
  }

  lemma {:induction false} RunInsertsFollowStores(userId: string, files: seq<File>, replies: seq<FileReply>,
                                                  paths: seq<string>, publicUrl: string -> string, i: nat)
    requires |replies| == |files| == |paths| && i <= |files|
    ensures InsertsFollowStores(UploadFrom(userId, files, replies, paths, publicUrl, i).effects)
    decreases |files| - i
  {
    if i < |files| {
      var here := FileEffects(userId, files[i], paths[i], replies[i], publicUrl);
      assert InsertsFollowStores(here);
      if Succeeded(replies[i]) {
        RunInsertsFollowStores(userId, files, replies, paths, publicUrl, i + 1);
        InsertsFollowStoresConcat(here, UploadFrom(userId, files, replies, paths, publicUrl, i + 1).effects);
      }
    }
  }

  // ---------------------------------------------------------------------
  // Deleting a material
  // ---------------------------------------------------------------------

  /** `materials.filter(m => m.id !== id)`. */
  function WithoutId(materials: seq<Material>, id: string): (r: seq<Material>)
    ensures |r| <= |materials|
    ensures forall i :: 0 <= i < |r| ==> r[i].id != id && r[i] in materials
  {
    Seqs.Filter(materials, (m: Material) => m.id != id)
  }

  /** Exactly the entries with another id stay, in their order, unchanged. */
  lemma WithoutIdKeepsOthers(materials: seq<Material>, id: string, m: Material)
    ensures m in WithoutId(materials, id) <==> m in materials && m.id != id
  {
    Seqs.FilterMembership(materials, (m: Material) => m.id != id, m);
  }

  lemma WithoutIdKeepsOrder(a: seq<Material>, b: seq<Material>, id: string)
    ensures WithoutId(a + b, id) == WithoutId(a, id) + WithoutId(b, id)
  {
    Seqs.FilterConcat(a, b, (m: Material) => m.id != id);
  }

  /** A list without the id is left as it is. */
  lemma WithoutAbsentId(materials: seq<Material>, id: string)
    requires forall i :: 0 <= i < |materials| ==> materials[i].id != id
    ensures WithoutId(materials, id) == materials
  {
    Seqs.FilterKeepsAll(materials, (m: Material) => m.id != id);
  }

  // ---------------------------------------------------------------------
  // The page
  // ---------------------------------------------------------------------

  datatype UploadOutcome = LoginRequired | Uploaded | UploadFailed

  /** The page's state: the picked files, the listed materials and the
      uploading flag. */
  class MaterialsPage {
    var files: seq<File>
    var materials: seq<Material>
    var isUploading: bool

    constructor()
      ensures files == [] && materials == [] && !isUploading
    {
      files := [];
      materials := [];
      isUploading := false;
    }

    /** `handleFileChange`: the selection is replaced by the acceptable
        files; the result says whether the rejection notice is shown. */
    method HandleFileChange(selected: seq<File>) returns (notice: bool)
      modifies this
      ensures files == SelectFiles(selected).valid
      ensures notice == SelectFiles(selected).notice
      ensures materials == old(materials) && isUploading == old(isUploading)
    {
      var selection := SelectFiles(selected);
      notice := selection.notice;
      files := selection.valid;
    }

    /** `uploadMaterials`. `user` is the signed-in user's id, `replies` the
        services' answers per picked file, and `refreshed` what the
        follow-up `fetchMaterials` loads (`None` when it fails). */
    method UploadMaterials(user: Option<string>, replies: seq<FileReply>, publicUrl: string -> string,
                           refreshed: Option<seq<Material>>)
      returns (effects: seq<Effect>, outcome: UploadOutcome)
      requires |replies| == |files|
      modifies this
      ensures user.None? ==>
        && outcome == LoginRequired && effects == []
        && isUploading && files == old(files) && materials == old(materials)
      ensures user.Some? ==>
        var run := Upload(user.value, old(files), replies, publicUrl);
        && effects == run.effects
        && outcome == (if run.ok then Uploaded else UploadFailed)
        && !isUploading
        && files == (if run.ok then [] else old(files))
        && materials == (if run.ok && refreshed.Some? then refreshed.value else old(materials))
    {
      isUploading := true;
      if user.None? {
        return [], LoginRequired;
      }
      var ok;
      effects, ok := UploadAll(user.value, files, replies, publicUrl);
      if ok {
        files := [];
        if refreshed.Some? {
          materials := refreshed.value;
        }
        outcome := Uploaded;
      } else {
        outcome := UploadFailed;
      }
      isUploading := false;
    }

    /** `deleteMaterial`: the stored object first, then the row; the list
        changes only when both succeed. */
    method DeleteMaterial(material: Material, storageOk: bool, rowDeleted: bool)
      returns (effects: seq<Effect>, deleted: bool)
      modifies this
      ensures effects == if storageOk then [RemoveObject(material.filePath), DeleteRow(material.id)]
                         else [RemoveObject(material.filePath)]
      ensures deleted <==> storageOk && rowDeleted
      ensures materials == if deleted then WithoutId(old(materials), material.id) else old(materials)
      ensures files == old(files) && isUploading == old(isUploading)
    {
      effects := [RemoveObject(material.filePath)];
      if !storageOk {
        return effects, false;
      }
      effects := effects + [DeleteRow(material.id)];
      if !rowDeleted {
        return effects, false;
      }
      materials := WithoutId(materials, material.id);
      deleted := true;
    }
  }
}
