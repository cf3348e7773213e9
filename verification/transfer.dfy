/**
 The loader: its transfer configuration and the four transfer operations.
 Every call into the object-store client and every directory creation becomes an
 `Action`; an operation is modelled by the sequence of actions it issues, in order.
 The local walk and the bucket listing are inputs.
 */
module Transfer {
  import opened Outcomes
  import opened Paths

  /** Bytes per mebibyte: the loader's `MB`. */
  const MiB: int := 1024 * 1024

  const DefaultMultipartThresholdMiB: int := 50
  const DefaultMaxConcurrency: int := 50

  /** The client's transfer policy; the threshold is in bytes. */
  datatype TransferConfig = TransferConfig(multipartThreshold: int, maxConcurrency: int)

  /** What the constructor keeps: credentials, the transfer policy and the verbosity flag. */
  datatype Loader = Loader(
    bucketName: Option<string>,
    accessKey: Option<string>,
    secretKey: Option<string>,
    endpointUrl: Option<string>,
    config: TransferConfig,
    verbose: bool)

  /** The threshold is given in MiB and kept in bytes: a whole number of mebibytes. */
  function MakeTransferConfig(thresholdMiB: int, maxConcurrency: int): (c: TransferConfig)
    ensures c.multipartThreshold % 1048576 == 0
    ensures c.multipartThreshold / 1048576 == thresholdMiB
    ensures c.maxConcurrency == maxConcurrency
  {
    TransferConfig(thresholdMiB * MiB, maxConcurrency)
  }

  /** The constructor: the arguments are stored as given and the policy is built from them. */
  function NewLoader(
    bucketName: Option<string>, accessKey: Option<string>, secretKey: Option<string>,
    endpointUrl: Option<string>, thresholdMiB: int, maxConcurrency: int, verbose: bool): (l: Loader)
    ensures l.bucketName == bucketName && l.accessKey == accessKey
    ensures l.secretKey == secretKey && l.endpointUrl == endpointUrl
    ensures l.verbose == verbose
    ensures l.config.multipartThreshold / 1048576 == thresholdMiB
    ensures l.config.multipartThreshold % 1048576 == 0
    ensures l.config.maxConcurrency == maxConcurrency
  {
    Loader(bucketName, accessKey, secretKey, endpointUrl,
           MakeTransferConfig(thresholdMiB, maxConcurrency), verbose)
  }

  /** The effects an operation has outside the model. */
  datatype Action =
    | Upload(localPath: string, key: string)
    | Download(key: string, localPath: string)
    | MakeDirs(path: string)

  /** One entry of a bucket listing: a key and its content length in bytes. */
  datatype S3Object = S3Object(key: string, size: nat)

  predicate Listed(listing: seq<S3Object>, key: string) {
    exists o :: o in listing && o.key == key
  }

  // ---------------------------------------------------------------- upload_file

  /** `upload_file`'s destination key: the file's basename below the stripped prefix. */
  function UploadKey(dest: string, src: string): (key: string)
    ensures Basename(key) == Basename(src)
    ensures RemoveLastSeparator(dest) <= key
    ensures key == Basename(src) <==> RemoveLastSeparator(dest) == ""
    ensures RemoveLastSeparator(dest) != "" ==>
              |key| == |RemoveLastSeparator(dest)| + 1 + |Basename(src)|
              && key[|RemoveLastSeparator(dest)|] == '/'
  {
    BasenameOfJoin(RemoveLastSeparator(dest), Basename(src));
    Join(RemoveLastSeparator(dest), Basename(src))
  }

  /**
   `upload_file`: one upload of `src` under its own basename below `dest`; the
   size lookup raises when the local file does not exist.
   */
  function UploadFile(src: string, dest: string, localFiles: set<string>): (r: Result<seq<Action>>)
    ensures r.Err? <==> src !in localFiles
    ensures r.Err? ==> r.error == NotFound(src)
    ensures r.Ok? ==> |r.value| == 1 && r.value[0].Upload? && r.value[0].localPath == src
    ensures r.Ok? ==> Basename(r.value[0].key) == Basename(src)
    ensures r.Ok? ==> RemoveLastSeparator(dest) <= r.value[0].key
    ensures r.Ok? ==> r.value[0].key == UploadKey(dest, src)
  {
    if src !in localFiles then Err(NotFound(src))
    else Ok([Upload(src, UploadKey(dest, src))])
  }

  // -------------------------------------------------------------- download_file

  /**
   `download_file`: one download of the key into `dest`, under the key's basename;
   the size lookup raises when the key does not exist. No directory is created.
   */
  function DownloadFile(src: string, dest: string, listing: seq<S3Object>): (r: Result<seq<Action>>)
    ensures r.Err? <==> !Listed(listing, src)
    ensures r.Err? ==> r.error == NotFound(src)
    ensures r.Ok? ==> |r.value| == 1 && r.value[0].Download? && r.value[0].key == src
    ensures r.Ok? ==> dest + "/" <= r.value[0].localPath
    ensures r.Ok? ==> Basename(r.value[0].localPath) == Basename(src)
    ensures r.Ok? ==> |r.value[0].localPath| == |dest| + 1 + |Basename(src)|
  {
    if !Listed(listing, src) then Err(NotFound(src))
    else
      BasenameAfterSlash(dest, Basename(src));
      Ok([Download(src, dest + "/" + Basename(src))])
  }

  /** A file uploaded below a prefix and then downloaded by its key lands under its own name. */
  lemma UploadThenDownloadFile(src: string, prefix: string, dir: string, localFiles: set<string>, listing: seq<S3Object>)
    requires src in localFiles
    requires dir != [] && dir[|dir| - 1] != '/'
    requires Listed(listing, UploadKey(prefix, src))
    ensures UploadFile(src, prefix, localFiles).Ok?
    ensures var key := UploadFile(src, prefix, localFiles).value[0].key;
            var r := DownloadFile(key, dir, listing);
            r.Ok? && r.value == [Download(key, dir + "/" + Basename(src))]
            && Dirname(r.value[0].localPath) == dir
  {
    var key := UploadKey(prefix, src);
    DirnameBasenameOfJoin(dir, Basename(src));
  }

  // ------------------------------------------------------------ download_folder

  /** The objects a listing filtered by `prefix` yields, in listing order. */
  function Under(prefix: string, listing: seq<S3Object>): (r: seq<S3Object>)
    ensures |r| <= |listing|
    ensures forall o :: o in r <==> o in listing && prefix <= o.key
  {
    if listing == [] then []
    else (if prefix <= listing[0].key then [listing[0]] else []) + Under(prefix, listing[1..])
  }

  /** Filtering a listing that starts with `o` keeps or drops `o`, then filters the rest. */
  lemma UnderCons(prefix: string, o: S3Object, rest: seq<S3Object>)
    ensures Under(prefix, [o] + rest) == (if prefix <= o.key then [o] else []) + Under(prefix, rest)
  {
    assert ([o] + rest)[1..] == rest;
  }

  /** A one-object listing is kept when the key starts with the prefix and dropped otherwise. */
  lemma UnderSingleton(prefix: string, o: S3Object)
    ensures Under(prefix, [o]) == if prefix <= o.key then [o] else []
  {
    UnderCons(prefix, o, []);
    assert [o] + [] == [o];
  }

  /** Filtering `a + b` and `a` both start by keeping or dropping `a`'s first object. */
  lemma UnderSplit(prefix: string, a: seq<S3Object>, b: seq<S3Object>)
    requires a != []
    ensures Under(prefix, a + b) == (if prefix <= a[0].key then [a[0]] else []) + Under(prefix, a[1..] + b)
    ensures Under(prefix, a) == (if prefix <= a[0].key then [a[0]] else []) + Under(prefix, a[1..])
  {
    assert (a + b)[0] == a[0];
    assert (a + b)[1..] == a[1..] + b;
  }

  /** Concatenation regroups freely. */
  lemma AppendAssoc<T>(x: seq<T>, y: seq<T>, z: seq<T>)
    ensures x + (y + z) == (x + y) + z
  {
  }

  /** Filtering keeps the listing's order: it distributes over `+`. */
  lemma {:induction false} UnderAppend(prefix: string, a: seq<S3Object>, b: seq<S3Object>)
    ensures Under(prefix, a + b) == Under(prefix, a) + Under(prefix, b)
  {
    if a != [] {
      UnderSplit(prefix, a, b);
      UnderAppend(prefix, a[1..], b);
      var h := if prefix <= a[0].key then [a[0]] else [];
      AppendAssoc(h, Under(prefix, a[1..]), Under(prefix, b));
    } else {
      assert a + b == b;
    }
  }

  /** Where `download_folder` writes an object: below `dest` at the object's full key. */
  function FolderTarget(dest: string, key: string): string {
    dest + "/" + key
  }

  /** The local paths that exist after `os.makedirs(d)`: `d` and each ancestor ending before a `/`. */
  function DirsMadeBy(d: string): (r: set<string>)
    ensures d in r
    ensures forall x :: x in r ==> x <= d
    ensures forall i :: 0 < i < |d| && d[i] == '/' ==> d[..i] in r
  {
    {d} + set i | 0 < i < |d| && d[i] == '/' :: d[..i]
  }

  /** The local paths an action brings into existence. */
  function Creates(a: Action): set<string> {
    match a
    case MakeDirs(d) => DirsMadeBy(d)
    case Download(_, p) => {p}
    case Upload(_, _) => {}
  }

  /** The actions issued so far and the local paths that exist afterwards. */
  datatype FolderRun = FolderRun(trace: seq<Action>, present: set<string>)

  /**
   One iteration of `download_folder`: the parent directory is created when it
   does not exist (whatever the object's size), then the object is downloaded
   only when it is not empty.
   */
  function DownloadObject(dest: string, o: S3Object, present: set<string>): (r: FolderRun)
    ensures MakeDirs(Dirname(FolderTarget(dest, o.key))) in r.trace <==> Dirname(FolderTarget(dest, o.key)) !in present
    ensures Download(o.key, FolderTarget(dest, o.key)) in r.trace <==> o.size > 0
    ensures |r.trace| <= 2
    ensures forall a :: a in r.trace ==>
              a == MakeDirs(Dirname(FolderTarget(dest, o.key))) || a == Download(o.key, FolderTarget(dest, o.key))
    ensures |r.trace| == 2 ==> r.trace[0].MakeDirs?
    ensures |r.trace| == (if Dirname(FolderTarget(dest, o.key)) in present then 0 else 1) + (if o.size > 0 then 1 else 0)
    ensures present <= r.present && Dirname(FolderTarget(dest, o.key)) in r.present
    ensures forall x :: x in r.present <==> x in present || exists a :: a in r.trace && x in Creates(a)
  {
    var target := FolderTarget(dest, o.key);
    var dir := Dirname(target);
    var made := if dir in present then present else present + DirsMadeBy(dir);
    FolderRun(
      (if dir in present then [] else [MakeDirs(dir)])
        + (if o.size > 0 then [Download(o.key, target)] else []),
      if o.size > 0 then made + {target} else made)
  }

  function DownloadObjects(dest: string, objs: seq<S3Object>, present: set<string>): FolderRun
    decreases |objs|
  {
    if objs == [] then FolderRun([], present)
    else
      var first := DownloadObject(dest, objs[0], present);
      var rest := DownloadObjects(dest, objs[1..], first.present);
      FolderRun(first.trace + rest.trace, rest.present)
  }

  /** `download_folder`: every listed object below the stripped prefix, in listing order. */
  function DownloadFolder(src: string, dest: string, listing: seq<S3Object>, present: set<string>): (r: FolderRun)
    ensures Downloads(r.trace) == NonEmptyDownloads(dest, Under(RemoveLastSeparator(src), listing))
    ensures forall x :: x in r.present <==> x in present || exists a :: a in r.trace && x in Creates(a)
  {
    var objs := Under(RemoveLastSeparator(src), listing);
    DownloadObjectsDownloads(dest, objs, present);
    DownloadObjectsPresent(dest, objs, present);
    DownloadObjects(dest, objs, present)
  }

  /** The download actions of a trace, in order. */
  function Downloads(trace: seq<Action>): (r: seq<Action>)
    ensures forall a :: a in r <==> a in trace && a.Download?
  {
    if trace == [] then []
    else (if trace[0].Download? then [trace[0]] else []) + Downloads(trace[1..])
  }

  /** Reference: one download per non-empty object, to its folder target, in order. */
  function NonEmptyDownloads(dest: string, objs: seq<S3Object>): seq<Action> {
    if objs == [] then []
    else (if objs[0].size > 0 then [Download(objs[0].key, FolderTarget(dest, objs[0].key))] else [])
         + NonEmptyDownloads(dest, objs[1..])
  }

  lemma {:induction false} DownloadsAppend(a: seq<Action>, b: seq<Action>)
    ensures Downloads(a + b) == Downloads(a) + Downloads(b)
  {
    if a != [] {
      assert (a + b)[1..] == a[1..] + b;
      DownloadsAppend(a[1..], b);
    } else {
      assert a + b == b;
    }
  }

  /** An object is downloaded exactly when it is not empty, and to its folder target. */
  lemma {:induction false} NonEmptyDownloadsMembers(dest: string, objs: seq<S3Object>, a: Action)
    ensures a in NonEmptyDownloads(dest, objs)
            <==> exists o :: o in objs && o.size > 0 && a == Download(o.key, FolderTarget(dest, o.key))
  {
    if objs != [] {
      NonEmptyDownloadsMembers(dest, objs[1..], a);
      assert forall o :: o in objs <==> o == objs[0] || o in objs[1..];
    }
  }

  /** The downloads `download_folder` issues are exactly the reference ones. */
  lemma {:induction false} DownloadObjectsDownloads(dest: string, objs: seq<S3Object>, present: set<string>)
    ensures Downloads(DownloadObjects(dest, objs, present).trace) == NonEmptyDownloads(dest, objs)
  {
    if objs != [] {
      var first := DownloadObject(dest, objs[0], present);
      DownloadObjectsDownloads(dest, objs[1..], first.present);
      DownloadsAppend(first.trace, DownloadObjects(dest, objs[1..], first.present).trace);
      DownloadObjectDownloads(dest, objs[0], present);
    }
  }

  /** One iteration downloads the object to its folder target exactly when it is not empty. */
  lemma DownloadObjectDownloads(dest: string, o: S3Object, present: set<string>)
    ensures Downloads(DownloadObject(dest, o, present).trace)
            == if o.size > 0 then [Download(o.key, FolderTarget(dest, o.key))] else []
  {
    var dir := Dirname(FolderTarget(dest, o.key));
    var mk: seq<Action> := if dir in present then [] else [MakeDirs(dir)];
    var dl: seq<Action> := if o.size > 0 then [Download(o.key, FolderTarget(dest, o.key))] else [];
    assert DownloadObject(dest, o, present).trace == mk + dl;
    DownloadsAppend(mk, dl);
    assert Downloads(mk) == [];
    assert Downloads(dl) == dl;
  }

  /** Local paths only ever come into existence. */
  lemma {:induction false} DownloadObjectsGrows(dest: string, objs: seq<S3Object>, present: set<string>)
    ensures present <= DownloadObjects(dest, objs, present).present
  {
    if objs != [] {
      DownloadObjectsGrows(dest, objs[1..], DownloadObject(dest, objs[0], present).present);
    }
  }

  /** The paths that exist afterwards are the ones that existed before and the ones the issued actions create. */
  lemma {:induction false} DownloadObjectsPresent(dest: string, objs: seq<S3Object>, present: set<string>)
    ensures var run := DownloadObjects(dest, objs, present);
            forall x :: x in run.present <==> x in present || exists a :: a in run.trace && x in Creates(a)
  {
    if objs != [] {
      var first := DownloadObject(dest, objs[0], present);
      var rest := DownloadObjects(dest, objs[1..], first.present);
      DownloadObjectsPresent(dest, objs[1..], first.present);
      assert forall a :: a in first.trace + rest.trace <==> a in first.trace || a in rest.trace;
    }
  }

  /** The loop issues nothing but directory creations and downloads. */
  lemma {:induction false} DownloadObjectsKinds(dest: string, objs: seq<S3Object>, present: set<string>)
    ensures forall a :: a in DownloadObjects(dest, objs, present).trace ==> a.MakeDirs? || a.Download?
  {
    if objs != [] {
      var first := DownloadObject(dest, objs[0], present);
      var rest := DownloadObjects(dest, objs[1..], first.present);
      DownloadObjectsKinds(dest, objs[1..], first.present);
      assert forall a :: a in first.trace + rest.trace ==> a in first.trace || a in rest.trace;
    }
  }

  /** Every download lands in a directory that existed before the run or that an earlier action created. */
  predicate ParentsReady(trace: seq<Action>, present: set<string>) {
    forall k :: 0 <= k < |trace| && trace[k].Download? ==>
      Dirname(trace[k].localPath) in present
      || exists j :: 0 <= j < k && Dirname(trace[k].localPath) in Creates(trace[j])
  }

  /** One iteration downloads only into a parent that exists or that it has just created. */
  lemma DownloadObjectParentReady(dest: string, o: S3Object, present: set<string>)
    ensures ParentsReady(DownloadObject(dest, o, present).trace, present)
  {
    var r := DownloadObject(dest, o, present);
    var dir := Dirname(FolderTarget(dest, o.key));
    forall k | 0 <= k < |r.trace| && r.trace[k].Download?
      ensures dir in present || exists j :: 0 <= j < k && dir in Creates(r.trace[j])
    {
      assert r.trace[k] in r.trace;
      if dir !in present {
        assert r.trace[0] == MakeDirs(dir);
        assert dir in Creates(r.trace[0]);
      }
    }
  }

  /** The readiness of a later part carries over once the earlier part's creations are counted. */
  lemma ParentsReadyAppend(t1: seq<Action>, t2: seq<Action>, present: set<string>, mid: set<string>)
    requires ParentsReady(t1, present) && ParentsReady(t2, mid)
    requires forall x :: x in mid ==> x in present || exists a :: a in t1 && x in Creates(a)
    ensures ParentsReady(t1 + t2, present)
  {
    var t := t1 + t2;
    forall k | 0 <= k < |t| && t[k].Download?
      ensures Dirname(t[k].localPath) in present || exists j :: 0 <= j < k && Dirname(t[k].localPath) in Creates(t[j])
    {
      var x := Dirname(t[k].localPath);
      if k < |t1| {
        assert t[k] == t1[k];
        if x !in present {
          var j :| 0 <= j < k && x in Creates(t1[j]);
          assert t[j] == t1[j];
        }
      } else {
        var k2 := k - |t1|;
        assert t[k] == t2[k2];
        if x !in present {
          if x in mid {
            var a :| a in t1 && x in Creates(a);
            var j :| 0 <= j < |t1| && t1[j] == a;
            assert t[j] == a;
          } else {
            var j2 :| 0 <= j2 < k2 && x in Creates(t2[j2]);
            assert t[|t1| + j2] == t2[j2];
          }
        }
      }
    }
  }

  /** Over the whole loop, every download's parent exists beforehand or is created earlier in the trace. */
  lemma {:induction false} DownloadObjectsParentsReady(dest: string, objs: seq<S3Object>, present: set<string>)
    ensures ParentsReady(DownloadObjects(dest, objs, present).trace, present)
  {
    if objs != [] {
      var first := DownloadObject(dest, objs[0], present);
      var rest := DownloadObjects(dest, objs[1..], first.present);
      DownloadObjectParentReady(dest, objs[0], present);
      DownloadObjectsParentsReady(dest, objs[1..], first.present);
      ParentsReadyAppend(first.trace, rest.trace, present, first.present);
    }
  }

  /**
   Every directory creation targets a path that is missing at that point: absent
   before the run and not created by any earlier action, so none is made twice.
   */
  predicate MakesOnlyAbsent(trace: seq<Action>, present: set<string>) {
    forall k :: 0 <= k < |trace| && trace[k].MakeDirs? ==>
      trace[k].path !in present && forall j :: 0 <= j < k ==> trace[k].path !in Creates(trace[j])
  }

  /** One iteration creates its parent directory only when it is missing, and first. */
  lemma DownloadObjectMakesOnlyAbsent(dest: string, o: S3Object, present: set<string>)
    ensures MakesOnlyAbsent(DownloadObject(dest, o, present).trace, present)
  {
    var r := DownloadObject(dest, o, present);
    forall k | 0 <= k < |r.trace| && r.trace[k].MakeDirs?
      ensures r.trace[k].path !in present && k == 0
    {
      assert r.trace[k] in r.trace;
    }
  }

  /** A later part that creates only paths missing after the earlier part keeps the whole trace free of repeats. */
  lemma MakesOnlyAbsentAppend(t1: seq<Action>, t2: seq<Action>, present: set<string>, mid: set<string>)
    requires MakesOnlyAbsent(t1, present) && MakesOnlyAbsent(t2, mid)
    requires present <= mid
    requires forall j :: 0 <= j < |t1| ==> Creates(t1[j]) <= mid
    ensures MakesOnlyAbsent(t1 + t2, present)
  {
    var t := t1 + t2;
    forall k | 0 <= k < |t| && t[k].MakeDirs?
      ensures t[k].path !in present && forall j :: 0 <= j < k ==> t[k].path !in Creates(t[j])
    {
      if k < |t1| {
        assert t[k] == t1[k];
        assert forall j :: 0 <= j < k ==> t[j] == t1[j];
      } else {
        var k2 := k - |t1|;
        assert t[k] == t2[k2];
        forall j | 0 <= j < k
          ensures t[k].path !in Creates(t[j])
        {
          if j < |t1| {
            assert t[j] == t1[j];
          } else {
            assert t[j] == t2[j - |t1|];
          }
        }
      }
    }
  }

  /** What one iteration creates is present afterwards. */
  lemma DownloadObjectCreatesPresent(dest: string, o: S3Object, present: set<string>)
    ensures var r := DownloadObject(dest, o, present);
            forall j :: 0 <= j < |r.trace| ==> Creates(r.trace[j]) <= r.present
  {
    var r := DownloadObject(dest, o, present);
    forall j, x | 0 <= j < |r.trace| && x in Creates(r.trace[j])
      ensures x in r.present
    {
      assert r.trace[j] in r.trace;
    }
  }

  /** Over the whole loop, no directory is created once it exists, so none is created twice. */
  lemma {:induction false} DownloadObjectsMakesOnlyAbsent(dest: string, objs: seq<S3Object>, present: set<string>)
    ensures MakesOnlyAbsent(DownloadObjects(dest, objs, present).trace, present)
  {
    if objs != [] {
      var first := DownloadObject(dest, objs[0], present);
      var rest := DownloadObjects(dest, objs[1..], first.present);
      DownloadObjectMakesOnlyAbsent(dest, objs[0], present);
      DownloadObjectCreatesPresent(dest, objs[0], present);
      DownloadObjectsMakesOnlyAbsent(dest, objs[1..], first.present);
      MakesOnlyAbsentAppend(first.trace, rest.trace, present, first.present);
    }
  }

  /** Afterwards the parent directory of every object exists, empty objects included. */
  lemma {:induction false} DownloadObjectsDirsExist(dest: string, objs: seq<S3Object>, present: set<string>)
    ensures forall o :: o in objs ==> Dirname(FolderTarget(dest, o.key)) in DownloadObjects(dest, objs, present).present
  {
    if objs != [] {
      var first := DownloadObject(dest, objs[0], present);
      assert Dirname(FolderTarget(dest, objs[0].key)) in first.present;
      DownloadObjectsGrows(dest, objs[1..], first.present);
      DownloadObjectsDirsExist(dest, objs[1..], first.present);
      assert forall o :: o in objs ==> o == objs[0] || o in objs[1..];
    }
  }

  /**
   A directory is created only when it is missing at that point of the run, and
   only as some object's parent.
   */
  lemma {:induction false} DownloadObjectsMakesOnlyMissing(dest: string, objs: seq<S3Object>, present: set<string>)
    ensures forall a :: a in DownloadObjects(dest, objs, present).trace && a.MakeDirs? ==>
              a.path !in present && exists o :: o in objs && a.path == Dirname(FolderTarget(dest, o.key))
    ensures MakesOnlyAbsent(DownloadObjects(dest, objs, present).trace, present)
  {
    DownloadObjectsMakesOnlyAbsent(dest, objs, present);
    if objs != [] {
      var first := DownloadObject(dest, objs[0], present);
      var rest := DownloadObjects(dest, objs[1..], first.present);
      DownloadObjectsMakesOnlyMissing(dest, objs[1..], first.present);
      forall a | a in first.trace + rest.trace && a.MakeDirs?
        ensures a.path !in present && exists o :: o in objs && a.path == Dirname(FolderTarget(dest, o.key))
      {
        if a in first.trace {
          assert a.path == Dirname(FolderTarget(dest, objs[0].key));
        } else {
          assert a in rest.trace;
          assert present <= first.present;
          var o :| o in objs[1..] && a.path == Dirname(FolderTarget(dest, o.key));
          assert o in objs;
        }
      }
    }
  }

  /**
   `download_folder`, end to end: the downloads are exactly the non-empty objects
   below the stripped prefix; each parent directory of such an object either
   existed before or is created by one of the issued actions; a parent directory
   is created only when it is missing at that point, so never twice; nothing but directory creations and downloads
   is issued, and each download comes after its parent exists.
   */
  lemma DownloadFolderEffects(src: string, dest: string, listing: seq<S3Object>, present: set<string>)
    ensures var run := DownloadFolder(src, dest, listing, present);
            var objs := Under(RemoveLastSeparator(src), listing);
            && Downloads(run.trace) == NonEmptyDownloads(dest, objs)
            && present <= run.present
            && (forall o :: o in listing && RemoveLastSeparator(src) <= o.key ==>
                  Dirname(FolderTarget(dest, o.key)) in run.present)
            && (forall o :: o in listing && RemoveLastSeparator(src) <= o.key ==>
                  Dirname(FolderTarget(dest, o.key)) in present
                  || exists a :: a in run.trace && Dirname(FolderTarget(dest, o.key)) in Creates(a))
            && (forall a :: a in run.trace && a.MakeDirs? ==>
                  a.path !in present && exists o :: o in objs && a.path == Dirname(FolderTarget(dest, o.key)))
            && (forall a :: a in run.trace ==> a.MakeDirs? || a.Download?)
            && ParentsReady(run.trace, present)
            && MakesOnlyAbsent(run.trace, present)
  {
    var objs := Under(RemoveLastSeparator(src), listing);
    DownloadObjectsKinds(dest, objs, present);
    DownloadObjectsParentsReady(dest, objs, present);
    DownloadObjectsDownloads(dest, objs, present);
    DownloadObjectsGrows(dest, objs, present);
    DownloadObjectsDirsExist(dest, objs, present);
    DownloadObjectsPresent(dest, objs, present);
    DownloadObjectsMakesOnlyMissing(dest, objs, present);
  }

  /** A listed object below the prefix is downloaded if and only if it is not empty. */
  lemma DownloadFolderDownloadsIff(src: string, dest: string, listing: seq<S3Object>, present: set<string>, o: S3Object)
    requires o in listing && RemoveLastSeparator(src) <= o.key
    requires forall p :: p in listing && p.key == o.key ==> p == o
    ensures Download(o.key, FolderTarget(dest, o.key)) in DownloadFolder(src, dest, listing, present).trace
            <==> o.size > 0
  {
    var objs := Under(RemoveLastSeparator(src), listing);
    var run := DownloadFolder(src, dest, listing, present);
    var a := Download(o.key, FolderTarget(dest, o.key));
    DownloadObjectsDownloads(dest, objs, present);
    NonEmptyDownloadsMembers(dest, objs, a);
    assert a in run.trace <==> a in Downloads(run.trace);
    if a in run.trace {
      var p :| p in objs && p.size > 0 && a == Download(p.key, FolderTarget(dest, p.key));
      assert p == o;
    }
  }

  // -------------------------------------------------------------- upload_folder

  /** `p.replace("\\", "/")`: local paths rewritten with forward slashes only. */
  function Slashed(p: string): (r: string)
    ensures |r| == |p|
    ensures '\\' !in r
  {
    seq(|p|, i requires 0 <= i < |p| => if p[i] == '\\' then '/' else p[i])
  }

  /** The character-wise rewrite is exactly Python's `replace` of the one-character pattern. */
  lemma {:induction false} SlashedIsReplace(p: string)
    ensures Slashed(p) == ReplaceAll(p, "\\", "/")
  {
    if p != [] {
      SlashedIsReplace(p[1..]);
      assert Slashed(p) == [Slashed(p)[0]] + Slashed(p[1..]);
      if p[0] == '\\' {
        assert p[..1] == "\\";
      } else {
        assert p[..1] != "\\";
      }
    }
  }

  /** The key below the prefix as S3UpDownLoader.py:161 computes it: every copy of `root/` in the path is deleted. */
  function BaseKeyAsWritten(root: string, file: string): (r: string)
    ensures Basename(root) + "/" <= r
  {
    Basename(root) + "/" + ReplaceAll(file, root + "/", "")
  }

  /** The path of `file` below `root`, or the whole path when it is not below `root`. */
  function RelativePath(root: string, file: string): (r: string)
    ensures root + "/" <= file ==> file == root + "/" + r
    ensures !(root + "/" <= file) ==> r == file
  {
    if root + "/" <= file then file[|root| + 1..] else file
  }

  /** The key below the prefix with only the leading `root/` removed: the root's name, then the relative path. */
  function BaseKey(root: string, file: string): string {
    Basename(root) + "/" + RelativePath(root, file)
  }

  /** When `root/` occurs only at the front of the path, the two base keys coincide. */
  lemma BaseKeyAgrees(root: string, rel: string)
    requires !Occurs(rel, root + "/")
    ensures BaseKeyAsWritten(root, root + "/" + rel) == BaseKey(root, root + "/" + rel)
  {
    assert root + "/" + rel == (root + "/") + rel;
    ReplaceAllLeadingOnly(root + "/", rel);
  }

  /** A leading copy of the pattern is deleted and the scan goes on after it. */
  lemma ReplaceAllDeletesLeading(pat: string, t: string)
    requires pat != []
    ensures ReplaceAll(pat + t, pat, "") == ReplaceAll(t, pat, "")
  {
    assert (pat + t)[..|pat|] == pat;
    assert (pat + t)[|pat|..] == t;
  }

  /** `"/a/x/a/y".replace("/a/", "")` is `"xy"`: both copies of the pattern go. */
  lemma ReplaceBothCopies()
    ensures ReplaceAll("/a/x/a/y", "/a/", "") == "xy"
  {
    ReplaceAllDeletesLeading("/a/", "x/a/y");
    assert "/a/" + "x/a/y" == "/a/x/a/y";
    assert "x/a/y"[..3] != "/a/" by { assert "x/a/y"[0] != "/a/"[0]; }
    assert "x/a/y"[1..] == "/a/y";
    assert ReplaceAll("x/a/y", "/a/", "") == "x" + ReplaceAll("/a/y", "/a/", "");
    ReplaceAllDeletesLeading("/a/", "y");
    assert "/a/" + "y" == "/a/y";
  }

  /** `"/a/xy".replace("/a/", "")` is `"xy"`. */
  lemma ReplaceOneCopy()
    ensures ReplaceAll("/a/xy", "/a/", "") == "xy"
  {
    ReplaceAllDeletesLeading("/a/", "xy");
    assert "/a/" + "xy" == "/a/xy";
  }

  /** The last component of `/a` is `a`. */
  lemma BasenameOfRoot()
    ensures Basename("/a") == "a"
  {
    assert LastSlash("/a") == 0;
  }

  /** S3UpDownLoader.py:161 on root `/a`: `/a/x/a/y` and `/a/xy` get the same key, `a/xy`. */
  lemma BaseKeyAsWrittenCollides()
    ensures BaseKeyAsWritten("/a", "/a/x/a/y") == "a/xy"
    ensures BaseKeyAsWritten("/a", "/a/xy") == "a/xy"
    ensures BaseKey("/a", "/a/x/a/y") == "a/x/a/y"
    ensures BaseKey("/a", "/a/xy") == "a/xy"
  {
    BasenameOfRoot();
    ReplaceBothCopies();
    ReplaceOneCopy();
    assert "/a/x/a/y"[3..] == "x/a/y";
    assert "/a/xy"[3..] == "xy";
  }

  /** Each walked path with forward slashes only, in walk order. */
  function SlashedAll(walk: seq<string>): (files: seq<string>)
    ensures |files| == |walk|
    ensures forall i :: 0 <= i < |walk| ==> files[i] == Slashed(walk[i])
  {
    seq(|walk|, i requires 0 <= i < |walk| => Slashed(walk[i]))
  }

  /** One upload of a walked file below `prefix`, at its base key. */
  function UploadEntry(root: string, prefix: string, file: string): Action {
    Upload(file, Join(prefix, BaseKey(root, file)))
  }

  function UploadEntries(root: string, prefix: string, files: seq<string>): (trace: seq<Action>)
    ensures |trace| == |files|
    ensures forall i :: 0 <= i < |files| ==> trace[i] == UploadEntry(root, prefix, files[i])
  {
    seq(|files|, i requires 0 <= i < |files| => UploadEntry(root, prefix, files[i]))
  }

  /**
   `upload_folder`, with the prefix stripped once and only the leading root
   removed from each walked path: one upload per walked file, in walk order.
   */
  function UploadFolder(src: string, dest: string, walk: seq<string>): (trace: seq<Action>)
    ensures |trace| == |walk|
    ensures forall i :: 0 <= i < |walk| ==> trace[i].Upload? && trace[i].localPath == Slashed(walk[i])
  {
    UploadEntries(Slashed(src), RemoveLastSeparator(dest), SlashedAll(walk))
  }

  /** A walked file `root/rel` is stored at `prefix/name/rel`, `name` being the root's last component. */
  lemma UploadEntryKey(root: string, prefix: string, rel: string)
    ensures UploadEntry(root, prefix, root + "/" + rel).key == Join(prefix, Basename(root) + "/" + rel)
  {
    assert root + "/" <= root + "/" + rel;
    assert RelativePath(root, root + "/" + rel) == rel;
  }

  /** `upload_folder`'s key for a walked file `root/rel`: `prefix/name/rel`. */
  lemma UploadFolderKey(src: string, dest: string, walk: seq<string>, i: int, rel: string)
    requires 0 <= i < |walk|
    requires Slashed(walk[i]) == Slashed(src) + "/" + rel
    ensures UploadFolder(src, dest, walk)[i].key
            == Join(RemoveLastSeparator(dest), Basename(Slashed(src)) + "/" + rel)
  {
    UploadEntryKey(Slashed(src), RemoveLastSeparator(dest), rel);
  }

  /** Every entry's key starts with the prefix and the root's name. */
  lemma UploadEntryPrefix(root: string, prefix: string, file: string)
    ensures Join(prefix, Basename(root) + "/") <= UploadEntry(root, prefix, file).key
  {
    var name := Basename(root);
    var rel := RelativePath(root, file);
    assert BaseKey(root, file) == (name + "/") + rel;
    if prefix == "" {
      assert Join(prefix, BaseKey(root, file)) == (name + "/") + rel;
    } else {
      assert Join(prefix, BaseKey(root, file)) == (prefix + "/" + name + "/") + rel;
    }
  }

  /** Every key shares one prefix: the stripped destination, then the root's name. */
  lemma UploadFolderSharedPrefix(src: string, dest: string, walk: seq<string>)
    ensures forall i :: 0 <= i < |walk| ==>
              Join(RemoveLastSeparator(dest), Basename(Slashed(src)) + "/") <= UploadFolder(src, dest, walk)[i].key
  {
    var root := Slashed(src);
    var prefix := RemoveLastSeparator(dest);
    var files := SlashedAll(walk);
    forall i | 0 <= i < |walk|
      ensures Join(prefix, Basename(root) + "/") <= UploadFolder(src, dest, walk)[i].key
    {
      UploadEntryPrefix(root, prefix, files[i]);
    }
  }

  /** Distinct entries below the root get distinct keys. */
  lemma UploadEntryKeysDistinct(root: string, prefix: string, f: string, g: string)
    requires root + "/" <= f && root + "/" <= g && f != g
    ensures UploadEntry(root, prefix, f).key != UploadEntry(root, prefix, g).key
  {
    var name := Basename(root);
    var rf := RelativePath(root, f);
    var rg := RelativePath(root, g);
    assert rf != rg;
    var n := if prefix == "" then |name| + 1 else |prefix| + 1 + |name| + 1;
    var kf := Join(prefix, name + "/" + rf);
    var kg := Join(prefix, name + "/" + rg);
    assert kf[n..] == rf;
    assert kg[n..] == rg;
  }

  /** Distinct files below the root are stored under distinct keys. */
  lemma UploadFolderKeysDistinct(src: string, dest: string, walk: seq<string>, i: int, j: int)
    requires 0 <= i < |walk| && 0 <= j < |walk|
    requires Slashed(src) + "/" <= Slashed(walk[i]) && Slashed(src) + "/" <= Slashed(walk[j])
    requires Slashed(walk[i]) != Slashed(walk[j])
    ensures UploadFolder(src, dest, walk)[i].key != UploadFolder(src, dest, walk)[j].key
  {
    UploadEntryKeysDistinct(Slashed(src), RemoveLastSeparator(dest), Slashed(walk[i]), Slashed(walk[j]));
  }

  /** The keys `upload_folder` wrote, as a listing with the given sizes. */
  function ListingOf(trace: seq<Action>, sizes: seq<nat>): (r: seq<S3Object>)
    requires |sizes| == |trace|
    requires forall i :: 0 <= i < |trace| ==> trace[i].Upload?
    ensures |r| == |trace|
  {
    seq(|trace|, i requires 0 <= i < |trace| => S3Object(trace[i].key, sizes[i]))
  }

  lemma {:induction false} UnderAll(prefix: string, listing: seq<S3Object>)
    requires forall i :: 0 <= i < |listing| ==> prefix <= listing[i].key
    ensures Under(prefix, listing) == listing
  {
    if listing != [] {
      UnderAll(prefix, listing[1..]);
    }
  }

  lemma {:induction false} NonEmptyDownloadsAll(dest: string, objs: seq<S3Object>)
    requires forall i :: 0 <= i < |objs| ==> objs[i].size > 0
    ensures NonEmptyDownloads(dest, objs)
            == seq(|objs|, i requires 0 <= i < |objs| => Download(objs[i].key, FolderTarget(dest, objs[i].key)))
  {
    if objs != [] {
      NonEmptyDownloadsAll(dest, objs[1..]);
    }
  }

  /**
   Downloading a folder whose listing consists of uploaded keys, all below the
   prefix and none empty, fetches every one of them, in order, to `out/key`.
   */
  lemma DownloadFolderAll(folder: string, out: string, up: seq<Action>, sizes: seq<nat>, present: set<string>)
    requires |sizes| == |up|
    requires forall i :: 0 <= i < |up| ==> up[i].Upload? && RemoveLastSeparator(folder) <= up[i].key
    requires forall i :: 0 <= i < |sizes| ==> sizes[i] > 0
    ensures var got := Downloads(DownloadFolder(folder, out, ListingOf(up, sizes), present).trace);
            |got| == |up| && forall i :: 0 <= i < |up| ==> got[i] == Download(up[i].key, FolderTarget(out, up[i].key))
  {
    var listing := ListingOf(up, sizes);
    UnderAll(RemoveLastSeparator(folder), listing);
    DownloadObjectsDownloads(out, listing, present);
    NonEmptyDownloadsAll(out, listing);
  }

  /** The folder key `prefix/name` is a prefix of `prefix/name/`. */
  lemma JoinFolderPrefix(prefix: string, name: string)
    ensures RemoveLastSeparator(Join(prefix, name)) <= Join(prefix, name + "/")
  {
    if prefix == "" {
      assert Join(prefix, name + "/") == Join(prefix, name) + "/";
    } else {
      assert Join(prefix, name + "/") == Join(prefix, name) + "/";
    }
  }

  /**
   Round trip: after uploading a folder below `dest`, downloading the prefix
   `dest/name` (name being the folder's last component) into `out` fetches every
   uploaded key, in upload order, to `out/key`.
   */
  lemma UploadThenDownloadFolder(src: string, dest: string, walk: seq<string>, sizes: seq<nat>,
                                 out: string, present: set<string>)
    requires |sizes| == |walk|
    requires forall i :: 0 <= i < |sizes| ==> sizes[i] > 0
    ensures var up := UploadFolder(src, dest, walk);
            var down := DownloadFolder(Join(RemoveLastSeparator(dest), Basename(Slashed(src))), out,
                                       ListingOf(up, sizes), present);
            var got := Downloads(down.trace);
            |got| == |walk| && forall i :: 0 <= i < |walk| ==> got[i] == Download(up[i].key, FolderTarget(out, up[i].key))
  {
    var up := UploadFolder(src, dest, walk);
    var prefix := RemoveLastSeparator(dest);
    var name := Basename(Slashed(src));
    var folder := Join(prefix, name);
    UploadFolderSharedPrefix(src, dest, walk);
    JoinFolderPrefix(prefix, name);
    forall i | 0 <= i < |up| ensures up[i].Upload? && RemoveLastSeparator(folder) <= up[i].key {
      assert up[i].Upload?;
      assert Join(prefix, name + "/") <= up[i].key;
      PrefixTransitive(RemoveLastSeparator(folder), Join(prefix, name + "/"), up[i].key);
    }
    DownloadFolderAll(folder, out, up, sizes, present);
  }

  /** One upload of `upload_folder` as written: the `i`-th file sees `dest` stripped `i + 1` times. */
  function AsWrittenEntry(root: string, dest: string, i: nat, file: string): Action {
    Upload(file, AsWrittenKey(StripN(dest, i + 1), root, file))
  }

  /** S3UpDownLoader.py:168-171: the current prefix joined with the base key of S3UpDownLoader.py:161. */
  function AsWrittenKey(prefix: string, root: string, file: string): string {
    Join(prefix, BaseKeyAsWritten(root, file))
  }

  /**
   `upload_folder` as written: the prefix is stripped again on every iteration
   (S3UpDownLoader.py:167), and every copy of `root/` is removed from a walked path (S3UpDownLoader.py:161).
   */
  function UploadFolderAsWrittenTrace(src: string, dest: string, walk: seq<string>): (trace: seq<Action>)
    ensures |trace| == |walk|
    ensures forall i :: 0 <= i < |walk| ==> trace[i].Upload? && trace[i].localPath == Slashed(walk[i])
    ensures forall i :: 0 <= i < |walk| ==> trace[i] == AsWrittenEntry(Slashed(src), dest, i, Slashed(walk[i]))
  {
    AsWrittenEntries(Slashed(src), dest, SlashedAll(walk))
  }

  /** The as-written uploads of already rewritten walked files, in walk order. */
  function AsWrittenEntries(root: string, dest: string, files: seq<string>): seq<Action> {
    seq(|files|, i requires 0 <= i < |files| => AsWrittenEntry(root, dest, i, files[i]))
  }

  /** Where the base keys agree and `dest` ends in at most one separator, an as-written upload is the corrected one. */
  lemma AsWrittenEntryAgrees(root: string, dest: string, i: nat, file: string)
    requires TrailingSeparators(dest) <= 1
    requires BaseKeyAsWritten(root, file) == BaseKey(root, file)
    ensures AsWrittenEntry(root, dest, i, file) == UploadEntry(root, RemoveLastSeparator(dest), file)
  {
    StripNSettles(dest, i + 1);
  }

  /**
   With at most one trailing separator the per-iteration stripping always yields
   the same prefix, so where the two base keys agree the as-written uploads are
   the corrected ones.
   */
  lemma AsWrittenAgrees(src: string, dest: string, walk: seq<string>)
    requires TrailingSeparators(dest) <= 1
    requires forall i :: 0 <= i < |walk| ==>
               BaseKeyAsWritten(Slashed(src), Slashed(walk[i])) == BaseKey(Slashed(src), Slashed(walk[i]))
    ensures UploadFolderAsWrittenTrace(src, dest, walk) == UploadFolder(src, dest, walk)
  {
    var aw := UploadFolderAsWrittenTrace(src, dest, walk);
    var up := UploadFolder(src, dest, walk);
    forall i | 0 <= i < |walk| ensures aw[i] == up[i] {
      AsWrittenEntryAgrees(Slashed(src), dest, i, Slashed(walk[i]));
      assert up[i] == UploadEntry(Slashed(src), RemoveLastSeparator(dest), SlashedAll(walk)[i]);
    }
  }

  /** Extending a prefix of a sequence by one element. */
  lemma TakeOneMore<T>(s: seq<T>, i: nat)
    requires i < |s|
    ensures s[..i + 1] == s[..i] + [s[i]]
  {
  }

  /**
   The loop of `upload_folder` as written, over walked files already rewritten
   with forward slashes: `dest_path` is reassigned on every iteration, so with `k`
   trailing separators the first `k` files see ever shorter prefixes.
   */
  method AsWrittenLoop(root: string, dest: string, files: seq<string>) returns (trace: seq<Action>)
    ensures |trace| == |files|
    ensures trace == AsWrittenEntries(root, dest, files)
  {
    ghost var target := AsWrittenEntries(root, dest, files);
    var d := dest;
    trace := [];
    var i := 0;
    while i < |files|
      invariant 0 <= i <= |files|
      invariant d == StripN(dest, i)
      invariant trace == target[..i]
    {
      d := RemoveLastSeparator(d);
      var entry := Upload(files[i], AsWrittenKey(d, root, files[i]));
      assert entry == target[i] by {
        assert d == StripN(dest, i + 1);
      }
      TakeOneMore(target, i);
      trace := trace + [entry];
      i := i + 1;
    }
    assert trace == target;
  }

  /** `upload_folder` as written: the walk rewritten with forward slashes, then the loop. */
  method UploadFolderAsWritten(src: string, dest: string, walk: seq<string>) returns (trace: seq<Action>)
    ensures trace == UploadFolderAsWrittenTrace(src, dest, walk)
  {
    trace := AsWrittenLoop(Slashed(src), dest, SlashedAll(walk));
  }

  /** An as-written entry for `root/rel`, with no further copy of `root/` in `rel`, keys as `name/rel`. */
  lemma AsWrittenEntryKey(root: string, dest: string, i: nat, rel: string)
    requires !Occurs(rel, root + "/")
    ensures AsWrittenEntry(root, dest, i, root + "/" + rel).key == Join(StripN(dest, i + 1), Basename(root) + "/" + rel)
  {
    BaseKeyAgrees(root, rel);
    assert root + "/" <= root + "/" + rel;
    assert RelativePath(root, root + "/" + rel) == rel;
  }

  /**
   The key `upload_folder` as written gives a walked file `root/rel` when `root/`
   does not occur again in `rel`: the destination stripped `i + 1` times, then
   `name/rel`; with at most one trailing separator that is the stripped destination.
   */
  lemma UploadFolderAsWrittenKey(src: string, dest: string, walk: seq<string>, i: int, rel: string)
    requires 0 <= i < |walk|
    requires Slashed(walk[i]) == Slashed(src) + "/" + rel
    requires !Occurs(rel, Slashed(src) + "/")
    ensures UploadFolderAsWrittenTrace(src, dest, walk)[i].key
            == Join(StripN(dest, i + 1), Basename(Slashed(src)) + "/" + rel)
    ensures TrailingSeparators(dest) <= 1 ==>
              UploadFolderAsWrittenTrace(src, dest, walk)[i].key
              == Join(RemoveLastSeparator(dest), Basename(Slashed(src)) + "/" + rel)
  {
    AsWrittenEntryKey(Slashed(src), dest, i, rel);
    if TrailingSeparators(dest) <= 1 {
      StripNSettles(dest, i + 1);
    }
  }

  /** Extending the leaf extends the joined key. */
  lemma JoinExtends(prefix: string, a: string, b: string)
    ensures Join(prefix, a) <= Join(prefix, a + b)
  {
    if prefix == "" {
      assert Join(prefix, a + b) == Join(prefix, a) + b;
    } else {
      assert Join(prefix, a + b) == Join(prefix, a) + b;
    }
  }

  /**
   Round trip for `upload_folder` as written, with at most one trailing separator
   on `dest`: in any listing (in any order, with other keys beside them) where the
   `i`-th uploaded key is a non-empty object of its own, downloading the prefix
   `dest/name` into `out` fetches that key to `out/key`.
   */
  lemma UploadThenDownloadFolderAsWritten(src: string, dest: string, walk: seq<string>, i: int,
                                          listing: seq<S3Object>, o: S3Object, out: string, present: set<string>)
    requires TrailingSeparators(dest) <= 1
    requires 0 <= i < |walk|
    requires o in listing && o.size > 0 && o.key == UploadFolderAsWrittenTrace(src, dest, walk)[i].key
    requires forall p :: p in listing && p.key == o.key ==> p == o
    ensures Download(o.key, FolderTarget(out, o.key))
            in DownloadFolder(Join(RemoveLastSeparator(dest), Basename(Slashed(src))), out, listing, present).trace
  {
    var root := Slashed(src);
    var prefix := RemoveLastSeparator(dest);
    var name := Basename(root);
    var base := BaseKeyAsWritten(root, Slashed(walk[i]));
    StripNSettles(dest, i + 1);
    assert o.key == Join(prefix, base);
    var tail := base[|name| + 1..];
    assert base == (name + "/") + tail;
    JoinFolderPrefix(prefix, name);
    JoinExtends(prefix, name + "/", tail);
    PrefixTransitive(RemoveLastSeparator(Join(prefix, name)), Join(prefix, name + "/"), o.key);
    DownloadFolderDownloadsIff(Join(prefix, name), out, listing, present, o);
  }

  /** S3UpDownLoader.py:167 with destination `p//`: the first file is stored below `p/`, the next below `p`. */
  lemma PrefixDrifts()
    ensures Join(StripN("p//", 1), "r/x") == "p//r/x"
    ensures Join(StripN("p//", 2), "r/y") == "p/r/y"
    ensures Join(RemoveLastSeparator("p//"), "r/y") == "p//r/y"
  {
    assert StripN("p//", 1) == "p/";
    assert StripN("p//", 2) == "p";
  }
}
