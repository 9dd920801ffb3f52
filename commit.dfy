/**
 * What `onContentAfterSave` does with the upload records gathered before the save
 * (image.php:120-143): every record's image becomes the stored value of its (field, item), and
 * a superseded file is deleted when its field says `remove_old`.
 */
module Commit {
  import opened FieldConfig
  import opened Paths

  /** One entry of `$this->uploaded`: the new image name and the name it replaces. */
  datatype UploadRecord = UploadRecord(field: nat, item: nat, image: string, previous: string)

  /** A (field id, item id) pair: the key of the field-value store. */
  type Key = (nat, nat)

  function KeyOf(rec: UploadRecord): Key {
    (rec.field, rec.item)
  }

  /**
   * The store after `setFieldValue` has been applied for each record, in order: every key it
   * held is still there, and every record's key now holds a value.
   */
  function Committed(store: map<Key, string>, recs: seq<UploadRecord>): (r: map<Key, string>)
    ensures store.Keys <= r.Keys
    ensures forall rec :: rec in recs ==> KeyOf(rec) in r
    decreases |recs|
  {
    if recs == [] then store
    else
      var last := recs[|recs| - 1];
      Committed(store, recs[..|recs| - 1])[KeyOf(last) := last.image]
  }

  /** The parameters the field model holds for a field; an unknown field has none set. */
  function ParamsOf(registry: map<nat, Params>, field: nat): Params {
    if field in registry then registry[field] else Unset
  }

  /** The record replaces a file and its field asks for the old one to be removed. */
  predicate Supersedes(registry: map<nat, Params>, rec: UploadRecord) {
    rec.image != rec.previous && RemoveOldSetting(ParamsOf(registry, rec.field)) > 0
  }

  /** `getPath($field, $upload->old)` */
  function OldPath(root: string, registry: map<nat, Params>, rec: UploadRecord): string {
    GetPath(root, ParamsOf(registry, rec.field), rec.previous)
  }

  /**
   * The files left after the deletions of the records, made one by one. Sweeping only
   * deletes: no file appears and no file's content changes.
   */
  function Swept<V>(files: map<string, V>, recs: seq<UploadRecord>, registry: map<nat, Params>, root: string): (r: map<string, V>)
    ensures r.Keys <= files.Keys
    ensures forall p :: p in r ==> r[p] == files[p]
    decreases |recs|
  {
    if recs == [] then files
    else
      var last := recs[|recs| - 1];
      var before := Swept(files, recs[..|recs| - 1], registry, root);
      if Supersedes(registry, last) then before - {OldPath(root, registry, last)} else before
  }

  /** The old paths of the records that supersede a file. */
  function DeletedPaths(recs: seq<UploadRecord>, registry: map<nat, Params>, root: string): set<string> {
    set rec | rec in recs && Supersedes(registry, rec) :: OldPath(root, registry, rec)
  }

  /** Deleted paths of a longer list: those of its front, plus the last record's old path if it supersedes. */
  lemma DeletedPathsSnoc(recs: seq<UploadRecord>, registry: map<nat, Params>, root: string)
    requires recs != []
    ensures var front, last := recs[..|recs| - 1], recs[|recs| - 1];
            DeletedPaths(recs, registry, root) ==
            DeletedPaths(front, registry, root) + (if Supersedes(registry, last) then {OldPath(root, registry, last)} else {})
  {
    var front, last := recs[..|recs| - 1], recs[|recs| - 1];
    assert recs == front + [last];
    assert forall rec :: rec in recs <==> rec in front || rec == last;
  }

  /**
   * The deletions in one formula: a file disappears exactly when some record supersedes it;
   * every other file, and every file of a field with `remove_old` off, stays.
   */
  lemma {:induction false} SweptRemovesExactlySuperseded<V>(files: map<string, V>, recs: seq<UploadRecord>, registry: map<nat, Params>, root: string)
    ensures Swept(files, recs, registry, root) == files - DeletedPaths(recs, registry, root)
    decreases |recs|
  {
    if recs != [] {
      var front := recs[..|recs| - 1];
      SweptRemovesExactlySuperseded(files, front, registry, root);
      DeletedPathsSnoc(recs, registry, root);
    }
  }

  /** Records that carry the old value forward (no new upload) never delete anything. */
  lemma UnchangedRecordsDeleteNothing<V>(files: map<string, V>, recs: seq<UploadRecord>, registry: map<nat, Params>, root: string)
    requires forall k :: 0 <= k < |recs| ==> recs[k].image == recs[k].previous
    ensures Swept(files, recs, registry, root) == files
  {
    SweptRemovesExactlySuperseded(files, recs, registry, root);
    assert DeletedPaths(recs, registry, root) == {};
  }

  /** A record deleting its old file never deletes its own new image (same field directory). */
  lemma NewImageIsNotItsOwnVictim(root: string, registry: map<nat, Params>, rec: UploadRecord)
    requires Supersedes(registry, rec)
    ensures GetPath(root, ParamsOf(registry, rec.field), rec.image) != OldPath(root, registry, rec)
  {
    GetPathInjective(root, ParamsOf(registry, rec.field), rec.image, rec.previous);
  }

  /** The value stored for the key of record `k` is that record's image when no later record shares its key. */
  lemma {:induction false} CommittedLastWins(store: map<Key, string>, recs: seq<UploadRecord>, k: nat)
    requires k < |recs|
    requires forall j :: k < j < |recs| ==> KeyOf(recs[j]) != KeyOf(recs[k])
    ensures KeyOf(recs[k]) in Committed(store, recs)
    ensures Committed(store, recs)[KeyOf(recs[k])] == recs[k].image
    decreases |recs|
  {
    var front := recs[..|recs| - 1];
    if k < |front| {
      assert front[k] == recs[k];
      forall j | k < j < |front| ensures KeyOf(front[j]) != KeyOf(front[k]) {
        assert front[j] == recs[j];
      }
      CommittedLastWins(store, front, k);
    }
  }

  /** A key no record mentions keeps whatever the store held for it. */
  lemma {:induction false} CommittedElsewhere(store: map<Key, string>, recs: seq<UploadRecord>, key: Key)
    requires forall j :: 0 <= j < |recs| ==> KeyOf(recs[j]) != key
    ensures key in Committed(store, recs) <==> key in store
    ensures key in store ==> Committed(store, recs)[key] == store[key]
    decreases |recs|
  {
    if recs != [] {
      var front := recs[..|recs| - 1];
      forall j | 0 <= j < |front| ensures KeyOf(front[j]) != key {
        assert front[j] == recs[j];
      }
      CommittedElsewhere(store, front, key);
    }
  }

  /** Writing `v` under `key` before or after replaying the records ends the same once `v` is written last. */
  lemma {:induction false} CommittedThenUpdate(store: map<Key, string>, recs: seq<UploadRecord>, key: Key, v: string)
    ensures Committed(store[key := v], recs)[key := v] == Committed(store, recs)[key := v]
    decreases |recs|
  {
    if recs != [] {
      var front := recs[..|recs| - 1];
      var last := recs[|recs| - 1];
      CommittedThenUpdate(store, front, key, v);
      var a: map<Key, string> := Committed(store[key := v], front);
      var b: map<Key, string> := Committed(store, front);
      var k: Key, w := KeyOf(last), last.image;
      assert a[key := v] == b[key := v];
      if k != key {
        assert a[k := w][key := v] == a[key := v][k := w];
        assert b[k := w][key := v] == b[key := v][k := w];
      } else {
        assert a[k := w][key := v] == a[key := v];
        assert b[k := w][key := v] == b[key := v];
      }
    }
  }

  /**
   * Since the record list is never cleared, a second after-save replays it; doing so changes
   * neither the store nor the files.
   */
  lemma {:induction false} CommitIdempotent(store: map<Key, string>, recs: seq<UploadRecord>)
    ensures Committed(Committed(store, recs), recs) == Committed(store, recs)
    decreases |recs|
  {
    if recs != [] {
      var front := recs[..|recs| - 1];
      var last := recs[|recs| - 1];
      var c := Committed(store, front);
      CommitIdempotent(store, front);
      CommittedThenUpdate(c, front, KeyOf(last), last.image);
    }
  }

  lemma SweptIdempotent<V>(files: map<string, V>, recs: seq<UploadRecord>, registry: map<nat, Params>, root: string)
    ensures Swept(Swept(files, recs, registry, root), recs, registry, root) == Swept(files, recs, registry, root)
  {
    var once := Swept(files, recs, registry, root);
    SweptRemovesExactlySuperseded(files, recs, registry, root);
    SweptRemovesExactlySuperseded(once, recs, registry, root);
    var d := DeletedPaths(recs, registry, root);
    assert (files - d) - d == files - d;
  }
}
