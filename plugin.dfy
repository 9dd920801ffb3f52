/**
 * The plugin object (`PlgFieldsImage`, image.php:20-371): the records it gathers before a save
 * and commits after it, over an abstract field-value store and an abstract set of files.
 */
module Plugin {
  import opened Wrappers
  import opened FieldConfig
  import opened Paths
  import opened Naming
  import opened Intake
  import opened Processing
  import opened Commit

  /** The field type this plugin handles (its `_name`). */
  const PluginName := "image"
  /** The only context in which `onContentPrepare` acts. */
  const UserContext := "com_users.user"
  /** The HTML helper key under which `field_image` is registered. */
  const UserImageHelper := "users.image"

  /** A custom field of an item: identity, type, parameters, stored value and display value. */
  datatype Field = Field(id: nat, name: string, kind: string, params: Params, rawValue: string, value: string)

  datatype Dims = Dims(width: Positive, height: Positive)

  /**
   * What the host finds in an uploaded temporary file: its sniffed MIME type, the decoded
   * picture's size (or the message of the exception decoding throws), its EXIF orientation
   * (`None` when absent or empty), and whether writing the result succeeds.
   */
  datatype Probe = Probe(mime: string, picture: Result<Dims, string>, orientation: Option<int>, writable: bool)

  /**
   * The environment: the site root, the server's upload size limit, the values successive
   * `uniqid()` calls return, and what each temporary file holds.
   */
  datatype Host = Host(root: string, maxUploadSize: int, uniqid: nat -> string, inspect: string -> Probe)

  /** A file on disk: one the model knows nothing about, or one this plugin wrote from an upload. */
  datatype FileContent = Existing | Written(source: string, resize: Resize, rotation: Option<int>)

  /** The outcome of before-save: let the save go on, or veto it with an error message. */
  datatype Verdict = Pass | Veto(error: UploadError)

  /** `uniqid()` never returns the same value twice. */
  ghost predicate UniqueIds(ids: nat -> string) {
    forall i: nat, j: nat :: ids(i) == ids(j) ==> i == j
  }

  /** A field before-save acts on: of this plugin's type, with upload data under its name. */
  predicate Eligible(f: Field, uploads: map<string, Descriptor>) {
    f.kind == PluginName && f.name in uploads
  }

  /**
   * The eligible fields, in the order the item lists them. `EligibleFieldsExactly` and
   * `EligibleFieldsInOrder` show they are exactly the eligible fields, at ascending positions.
   */
  function EligibleFields(fields: seq<Field>, uploads: map<string, Descriptor>): (e: seq<Field>)
    ensures |e| <= |fields|
    ensures forall k :: 0 <= k < |e| ==> Eligible(e[k], uploads)
    decreases |fields|
  {
    if fields == [] then []
    else
      var last := fields[|fields| - 1];
      EligibleFields(fields[..|fields| - 1], uploads) + (if Eligible(last, uploads) then [last] else [])
  }

  /** A field takes part exactly when it is one of the item's fields and is eligible. */
  lemma {:induction false} EligibleFieldsExactly(fields: seq<Field>, uploads: map<string, Descriptor>)
    ensures forall f :: f in EligibleFields(fields, uploads) <==> f in fields && Eligible(f, uploads)
    decreases |fields|
  {
    if fields != [] {
      var front := fields[..|fields| - 1];
      EligibleFieldsExactly(front, uploads);
      assert fields == front + [fields[|fields| - 1]];
    }
  }

  /** The positions of the eligible fields, ascending: each eligible position once, no other. */
  function EligibleIndices(fields: seq<Field>, uploads: map<string, Descriptor>): (idx: seq<nat>)
    ensures forall k :: 0 <= k < |idx| ==> idx[k] < |fields|
    ensures forall k, l :: 0 <= k < l < |idx| ==> idx[k] < idx[l]
    ensures forall i :: 0 <= i < |fields| ==> (i in idx <==> Eligible(fields[i], uploads))
    decreases |fields|
  {
    if fields == [] then []
    else
      var n := |fields| - 1;
      var front := fields[..n];
      assert forall i :: 0 <= i < n ==> front[i] == fields[i];
      EligibleIndices(front, uploads) + (if Eligible(fields[n], uploads) then [n] else [])
  }

  /** The eligible fields are the fields at the eligible positions, in ascending order. */
  lemma {:induction false} EligibleFieldsInOrder(fields: seq<Field>, uploads: map<string, Descriptor>)
    ensures |EligibleFields(fields, uploads)| == |EligibleIndices(fields, uploads)|
    ensures forall k :: 0 <= k < |EligibleFields(fields, uploads)| ==>
              EligibleFields(fields, uploads)[k] == fields[EligibleIndices(fields, uploads)[k]]
    decreases |fields|
  {
    if fields != [] {
      var n := |fields| - 1;
      var front := fields[..n];
      EligibleFieldsInOrder(front, uploads);
      forall k | 0 <= k < |EligibleFields(front, uploads)|
        ensures EligibleFields(fields, uploads)[k] == fields[EligibleIndices(fields, uploads)[k]]
      {
        assert EligibleFields(fields, uploads)[k] == EligibleFields(front, uploads)[k];
        assert EligibleIndices(fields, uploads)[k] == EligibleIndices(front, uploads)[k];
      }
    }
  }

  /** Taking one more field adds it to the eligible ones exactly when it is eligible. */
  lemma EligibleSnoc(fields: seq<Field>, uploads: map<string, Descriptor>, i: nat)
    requires i < |fields|
    ensures EligibleFields(fields[..i + 1], uploads) ==
            EligibleFields(fields[..i], uploads) + (if Eligible(fields[i], uploads) then [fields[i]] else [])
  {
    assert fields[..i + 1][..i] == fields[..i];
  }

  /** The eligible fields among the first `i` come first among all eligible fields. */
  lemma {:induction false} EligiblePrefix(fields: seq<Field>, uploads: map<string, Descriptor>, i: nat)
    requires i <= |fields|
    ensures EligibleFields(fields[..i], uploads) <= EligibleFields(fields, uploads)
    decreases |fields| - i
  {
    if i < |fields| {
      var front := fields[..|fields| - 1];
      assert front[..i] == fields[..i];
      EligiblePrefix(front, uploads, i);
    } else {
      assert fields[..i] == fields;
    }
  }

  /**
   * `uploadImage` succeeds on the upload: it passes the intake checks, its picture decodes
   * and the result can be written.
   */
  predicate Accepted(host: Host, d: Descriptor) {
    var probe := host.inspect(d.tmpName);
    Validate(d, host.maxUploadSize, probe.mime).Ok? && probe.picture.Ok? && probe.writable
  }

  /**
   * The error `uploadImage` answers for an upload it does not accept: the first failing intake
   * check, else the decoder's message, else "Unknown" for a failed write.
   */
  function UploadErrorOf(host: Host, d: Descriptor): (e: UploadError)
    requires !Accepted(host, d)
    ensures e.Failed? <==> Validate(d, host.maxUploadSize, host.inspect(d.tmpName).mime).Ok?
  {
    var probe := host.inspect(d.tmpName);
    var checked := Validate(d, host.maxUploadSize, probe.mime);
    if checked.Err? then checked.error
    else if probe.picture.Err? then Failed(probe.picture.error)
    else Failed("Unknown")
  }

  /**
   * `rec` is the record before-save makes for field `f` of item `itemId`: it remembers the old
   * value, and carries it forward when no file came, or else names a new `.jpg` whose prefix
   * records the field and the item, for an upload `uploadImage` accepted.
   */
  predicate Describes(host: Host, rec: UploadRecord, f: Field, itemId: nat, d: Descriptor) {
    rec.field == f.id && rec.item == itemId && rec.previous == f.rawValue &&
    if HasFile(d) then Accepted(host, d) && HasStoredForm(rec.image, Prefix(f.id, itemId))
    else rec.image == f.rawValue
  }

  /** Before-save vetoes because field `f`, which sent a file, failed `uploadImage`, with its error. */
  predicate VetoedBy(host: Host, v: Verdict, f: Field, uploads: map<string, Descriptor>) {
    v.Veto? && f.name in uploads && HasFile(uploads[f.name]) &&
    !Accepted(host, uploads[f.name]) && v.error == UploadErrorOf(host, uploads[f.name])
  }

  /** Each record describes the field at the same position, with that field's upload data. */
  predicate DescribedBy(host: Host, recs: seq<UploadRecord>, fs: seq<Field>, itemId: nat, uploads: map<string, Descriptor>) {
    |recs| <= |fs| &&
    forall k :: 0 <= k < |recs| ==> fs[k].name in uploads && Describes(host, recs[k], fs[k], itemId, uploads[fs[k].name])
  }

  lemma DescribedByExtend(host: Host, recs: seq<UploadRecord>, fs: seq<Field>, rec: UploadRecord, f: Field, itemId: nat, uploads: map<string, Descriptor>)
    requires |recs| == |fs| && DescribedBy(host, recs, fs, itemId, uploads)
    requires f.name in uploads && Describes(host, rec, f, itemId, uploads[f.name])
    ensures DescribedBy(host, recs + [rec], fs + [f], itemId, uploads)
  {
  }

  lemma DescribedByPrefix(host: Host, recs: seq<UploadRecord>, fs: seq<Field>, all: seq<Field>, itemId: nat, uploads: map<string, Descriptor>)
    requires DescribedBy(host, recs, fs, itemId, uploads) && fs <= all
    ensures DescribedBy(host, recs, all, itemId, uploads)
  {
    forall k | 0 <= k < |recs| ensures all[k] == fs[k] { }
  }

  /**
   * When before-save stops at the eligible field `i`, the records made so far describe the
   * eligible fields before it, and that field is the next eligible one.
   */
  lemma StopsAt(host: Host, fields: seq<Field>, uploads: map<string, Descriptor>, i: nat, added: seq<UploadRecord>, itemId: nat)
    requires i < |fields| && Eligible(fields[i], uploads)
    requires |added| == |EligibleFields(fields[..i], uploads)|
    requires DescribedBy(host, added, EligibleFields(fields[..i], uploads), itemId, uploads)
    ensures |added| < |EligibleFields(fields, uploads)| && EligibleFields(fields, uploads)[|added|] == fields[i]
    ensures DescribedBy(host, added, EligibleFields(fields, uploads), itemId, uploads)
  {
    EligibleSnoc(fields, uploads, i);
    EligiblePrefix(fields, uploads, i + 1);
    DescribedByPrefix(host, added, EligibleFields(fields[..i], uploads), EligibleFields(fields, uploads), itemId, uploads);
  }

  /** The cases in which `onUserAfterSave` commits nothing. */
  predicate UserSaveSkipped(userId: nat, success: bool, task: string) {
    userId == 0 || !success || task in {"activate", "block", "unblock"}
  }

  /** The fields of a user profile with the display value copied into the raw value. */
  function Promoted(fields: map<nat, Field>): (r: map<nat, Field>)
    ensures r.Keys == fields.Keys
    ensures forall id :: id in fields ==>
              r[id].rawValue == fields[id].value && r[id].(rawValue := fields[id].rawValue) == fields[id]
  {
    map id | id in fields :: fields[id].(rawValue := fields[id].value)
  }

  /** The path of the candidate named with the `k`-th unique id. */
  function TriedPath(root: string, params: Params, prefix: string, ids: nat -> string, k: nat): string {
    GetPath(root, params, Candidate(prefix, ids(k)))
  }

  /** Every candidate tried is a distinct existing file, so the naming loop tries at most as many as there are files. */
  lemma {:induction false} TakenBound(root: string, params: Params, prefix: string, ids: nat -> string, taken: set<string>, lo: nat, hi: nat)
    requires UniqueIds(ids) && lo <= hi
    requires forall k :: lo <= k < hi ==> TriedPath(root, params, prefix, ids, k) in taken
    ensures hi - lo <= |taken|
    decreases hi - lo
  {
    if lo < hi {
      var p := TriedPath(root, params, prefix, ids, hi - 1);
      forall k | lo <= k < hi - 1 ensures TriedPath(root, params, prefix, ids, k) in taken - {p} {
        GetPathInjective(root, params, Candidate(prefix, ids(k)), Candidate(prefix, ids(hi - 1)));
        CandidateInjective(prefix, ids(k), ids(hi - 1));
      }
      TakenBound(root, params, prefix, ids, taken - {p}, lo, hi - 1);
    }
  }

  /** A content item's custom fields, as `onContentPrepare` receives them. */
  class ContentItem {
    var jcfields: map<nat, Field>

    constructor (jcfields: map<nat, Field>)
      ensures this.jcfields == jcfields
    {
      this.jcfields := jcfields;
    }
  }

  /** The host's registry of named HTML helpers. */
  class HtmlHelpers {
    var registered: set<string>

    constructor (registered: set<string>)
      ensures this.registered == registered
    {
      this.registered := registered;
    }
  }

  class FieldsImagePlugin {
    const host: Host
    /** `$this->uploaded`: records gathered by before-save, never cleared. */
    var uploaded: seq<UploadRecord>
    /** The field-value store `setFieldValue` writes, by (field id, item id). */
    var store: map<Key, string>
    /** The files under the site root. */
    var files: map<string, FileContent>
    /** How many times `uniqid()` has been called. */
    var clock: nat

    ghost predicate Valid() {
      UniqueIds(host.uniqid)
    }

    constructor (host: Host, store: map<Key, string>, files: map<string, FileContent>)
      requires UniqueIds(host.uniqid)
      ensures Valid() && this.host == host
      ensures uploaded == [] && this.store == store && this.files == files && clock == 0
    {
      this.host := host;
      this.uploaded := [];
      this.store := store;
      this.files := files;
      this.clock := 0;
    }

    /** The path of the candidate the `k`-th `uniqid()` value gives. */
    function Tried(params: Params, prefix: string, k: nat): string {
      TriedPath(host.root, params, prefix, host.uniqid, k)
    }

    /**
     * The naming loop (image.php:304): draw unique ids until the candidate does not exist. The
     * name returned is the first free one, and every id drawn before it named an existing file.
     */
    method NewFileName(params: Params, prefix: string) returns (name: string)
      requires Valid()
      modifies this`clock
      ensures old(clock) < clock
      ensures name == Candidate(prefix, host.uniqid(clock - 1))
      ensures Tried(params, prefix, clock - 1) !in files
      ensures forall k :: old(clock) <= k < clock - 1 ==> Tried(params, prefix, k) in files
    {
      var start := clock;
      var k := start;
      while Tried(params, prefix, k) in files
        invariant start <= k
        invariant forall j :: start <= j < k ==> Tried(params, prefix, j) in files
        decreases |files.Keys| - (k - start)
      {
        forall j | start <= j < k + 1 ensures TriedPath(host.root, params, prefix, host.uniqid, j) in files.Keys {
          assert Tried(params, prefix, j) in files;
        }
        TakenBound(host.root, params, prefix, host.uniqid, files.Keys, start, k + 1);
        k := k + 1;
      }
      name := Candidate(prefix, host.uniqid(k));
      clock := k + 1;
    }

    /**
     * The file `uploadImage` writes for an upload whose picture decodes: that picture, resized
     * as the field's box and `scale_down` decide and turned upright as its EXIF orientation says.
     */
    function Output(d: Descriptor, params: Params): (out: FileContent)
      requires host.inspect(d.tmpName).picture.Ok?
      ensures out.Written? && out.source == d.tmpName
      ensures out.rotation.Some? <==> host.inspect(d.tmpName).orientation in {Some(3), Some(6), Some(8)}
    {
      var probe := host.inspect(d.tmpName);
      var dims := probe.picture.value;
      Written(d.tmpName,
              ResizeFor(WidthSetting(params), HeightSetting(params), ScaleDownSetting(params), dims.width, dims.height),
              RotationFor(probe.orientation))
    }

    /**
     * `uploadImage`: the intake checks, then a fresh name, then the decoded picture is resized
     * and turned as decided and written under that name, and the temporary file removed.
     * Each failure returns its error and leaves the files as they were.
     */
    method UploadImage(d: Descriptor, params: Params, prefix: string) returns (r: Result<string, UploadError>)
      requires Valid()
      modifies this`files, this`clock
      ensures var probe := host.inspect(d.tmpName);
              var checked := Validate(d, host.maxUploadSize, probe.mime);
              && (r.Ok? <==> checked.Ok? && probe.picture.Ok? && probe.writable)
              && (checked.Err? ==> r == Err(checked.error) && files == old(files) && clock == old(clock))
              && (checked.Ok? && probe.picture.Err? ==> r == Err(Failed(probe.picture.error)))
              && (checked.Ok? && probe.picture.Ok? && !probe.writable ==> r == Err(Failed("Unknown")))
              && (r.Err? ==> files == old(files))
              && (checked.Ok? ==>
                    old(clock) < clock &&
                    Tried(params, prefix, clock - 1) !in old(files) &&
                    forall k :: old(clock) <= k < clock - 1 ==> Tried(params, prefix, k) in old(files))
              && (r.Ok? ==>
                    r.value == Candidate(prefix, host.uniqid(clock - 1)) &&
                    files == old(files)[GetPath(host.root, params, r.value) := Output(d, params)] - {d.tmpName})
    {
      var dir := GetPath(host.root, params, "");
      var probe := host.inspect(d.tmpName);
      var checked := Validate(d, host.maxUploadSize, probe.mime);
      if checked.Err? {
        return Err(checked.error);
      }
      var name := NewFileName(params, prefix);
      if probe.picture.Err? {
        return Err(Failed(probe.picture.error));
      }
      var dims := probe.picture.value;
      var resize := ResizeFor(WidthSetting(params), HeightSetting(params), ScaleDownSetting(params), dims.width, dims.height);
      var rotation := RotationFor(probe.orientation);
      if !probe.writable {
        return Err(Failed("Unknown"));
      }
      GetPathExtends(host.root, params, name);
      files := files[dir + name := Written(d.tmpName, resize, rotation)];
      files := files - {d.tmpName};
      r := Ok(name);
    }

    /**
     * The record before-save makes for one eligible field: with no file, the old value carried
     * forward; with a file, the uploaded image, or the upload's error (never NO_FILE).
     */
    method Gather(f: Field, itemId: nat, d: Descriptor) returns (r: Result<UploadRecord, UploadError>)
      requires Valid()
      modifies this`files, this`clock
      ensures r.Ok? ==> Describes(host, r.value, f, itemId, d)
      ensures r.Err? ==> HasFile(d) && r.error != NoFile && files == old(files)
      ensures HasFile(d) ==> (r.Ok? <==> Accepted(host, d)) && (r.Err? ==> r.error == UploadErrorOf(host, d))
      ensures !HasFile(d) ==> r.Ok? && files == old(files) && clock == old(clock)
      ensures r.Ok? && HasFile(d) ==>
                var prefix := Prefix(f.id, itemId);
                && host.inspect(d.tmpName).picture.Ok?
                && old(clock) < clock
                && r.value.image == Candidate(prefix, host.uniqid(clock - 1))
                && Tried(f.params, prefix, clock - 1) !in old(files)
                && files == old(files)[GetPath(host.root, f.params, r.value.image) := Output(d, f.params)] - {d.tmpName}
    {
      if HasFile(d) {
        var response := UploadImage(d, f.params, Prefix(f.id, itemId));
        if response.Err? {
          NoFileExactlyWithoutFile(d, host.maxUploadSize, host.inspect(d.tmpName).mime);
          return Err(response.error);
        }
        r := Ok(UploadRecord(f.id, itemId, response.value, f.rawValue));
      } else {
        // No file given: keep the old value.
        r := Ok(UploadRecord(f.id, itemId, f.rawValue, f.rawValue));
      }
    }

    /**
     * `onContentBeforeSave`: for each eligible field, in order, append a record; a field with
     * a file goes through `uploadImage` first, and its failure vetoes the save at once, so no
     * later field gets a record. Records already appended stay.
     */
    method BeforeSave(fields: seq<Field>, itemId: nat, uploads: map<string, Descriptor>) returns (v: Verdict)
      requires Valid()
      modifies this`uploaded, this`files, this`clock
      ensures |old(uploaded)| <= |uploaded| && uploaded[..|old(uploaded)|] == old(uploaded)
      ensures var added := uploaded[|old(uploaded)|..];
              var e := EligibleFields(fields, uploads);
              && DescribedBy(host, added, e, itemId, uploads)
              && (v.Pass? <==> |added| == |e|)
              && (v.Veto? ==> VetoedBy(host, v, e[|added|], uploads) && v.error != NoFile)
    {
      ghost var base := uploaded;
      ghost var added: seq<UploadRecord> := [];
      ghost var done: seq<Field> := [];
      var i := 0;
      while i < |fields|
        invariant 0 <= i <= |fields|
        invariant uploaded == base + added
        invariant done == EligibleFields(fields[..i], uploads)
        invariant |added| == |done| && DescribedBy(host, added, done, itemId, uploads)
      {
        var f := fields[i];
        EligibleSnoc(fields, uploads, i);
        if f.kind == PluginName && f.name in uploads {
          var d := uploads[f.name];
          var gathered := Gather(f, itemId, d);
          if gathered.Err? {
            StopsAt(host, fields, uploads, i, added, itemId);
            assert VetoedBy(host, Veto(gathered.error), f, uploads);
            assert uploaded[|base|..] == added;
            return Veto(gathered.error);
          }
          DescribedByExtend(host, added, done, gathered.value, f, itemId, uploads);
          uploaded := uploaded + [gathered.value];
          added := added + [gathered.value];
          done := done + [f];
        }
        i := i + 1;
      }
      assert fields[..i] == fields;
      assert uploaded[|base|..] == added;
      v := Pass;
    }

    /**
     * `onContentAfterSave`: replay every record, storing its image and deleting the file it
     * supersedes when its field has `remove_old` (default 1) on. The list is kept.
     */
    method AfterSave(registry: map<nat, Params>) returns (ok: bool)
      modifies this`store, this`files
      ensures ok
      ensures store == Committed(old(store), uploaded)
      ensures files == Swept(old(files), uploaded, registry, host.root)
    {
      var i := 0;
      while i < |uploaded|
        invariant 0 <= i <= |uploaded|
        invariant store == Committed(old(store), uploaded[..i])
        invariant files == Swept(old(files), uploaded[..i], registry, host.root)
      {
        var upload := uploaded[i];
        ghost var done := uploaded[..i + 1];
        assert done[..i] == uploaded[..i] && done[i] == upload;
        assert Committed(old(store), done) == Committed(old(store), uploaded[..i])[KeyOf(upload) := upload.image];
        assert Swept(old(files), done, registry, host.root) ==
               if Supersedes(registry, upload) then files - {OldPath(host.root, registry, upload)} else files;
        store := store[KeyOf(upload) := upload.image];
        if upload.image != upload.previous {
          var params := ParamsOf(registry, upload.field);
          if RemoveOldSetting(params) > 0 {
            files := files - {GetPath(host.root, params, upload.previous)};
          }
        }
        i := i + 1;
      }
      assert uploaded[..i] == uploaded;
      ok := true;
    }

    /**
     * `onUserAfterSave`: commit the records unless the user id is empty, the save failed, or
     * the request only activates, blocks or unblocks the user. Always answers true.
     */
    method UserAfterSave(userId: nat, success: bool, task: string, registry: map<nat, Params>) returns (ok: bool)
      modifies this`store, this`files
      ensures ok
      ensures UserSaveSkipped(userId, success, task) ==> store == old(store) && files == old(files)
      ensures !UserSaveSkipped(userId, success, task) ==>
                store == Committed(old(store), uploaded) && files == Swept(old(files), uploaded, registry, host.root)
    {
      if userId == 0 || !success {
        return true;
      }
      if task in {"activate", "block", "unblock"} {
        return true;
      }
      var _ := AfterSave(registry);
      ok := true;
    }

    /**
     * `onContentPrepare`: on a user profile, copy each field's display value into its raw
     * value, and make sure `field_image` is registered as the `users.image` helper.
     */
    method ContentPrepare(context: string, item: ContentItem, html: HtmlHelpers)
      modifies item, html
      ensures context != UserContext ==> item.jcfields == old(item.jcfields) && html.registered == old(html.registered)
      ensures context == UserContext ==>
                item.jcfields == Promoted(old(item.jcfields)) && html.registered == old(html.registered) + {UserImageHelper}
    {
      if context != UserContext {
        return;
      }
      var todo := item.jcfields.Keys;
      while todo != {}
        invariant todo <= item.jcfields.Keys == old(item.jcfields).Keys
        invariant forall id :: id in item.jcfields ==>
                    item.jcfields[id] == if id in todo then old(item.jcfields)[id] else Promoted(old(item.jcfields))[id]
        invariant html.registered == old(html.registered)
        decreases todo
      {
        var id :| id in todo;
        var field := item.jcfields[id];
        field := field.(rawValue := field.value);
        item.jcfields := item.jcfields[id := field];
        todo := todo - {id};
      }
      if UserImageHelper !in html.registered {
        html.registered := html.registered + {UserImageHelper};
      }
    }
  }
}
