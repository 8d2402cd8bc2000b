/**
 * The flat file service `FileInterface` (tugas-ets/file_interface.py).
 *
 * The directory `files/` is a map from entry name to file content. Every
 * entry is a regular file; the names a directory can hold are non-empty, are
 * not "." or "..", and contain no '/'. Globbing the directory
 * with the pattern `*.*` is the name predicate `MatchesStarDotStar`. The base64 decoder is a parameter: it
 * either yields the decoded bytes or fails with the message of the exception
 * Python's decoder raises.
 *
 * Every operation takes the protocol's argument list `params`; an absent
 * argument raises IndexError, which the operations' catch-all turns into an
 * ERROR response carrying the exception text.
 */
module FileInterface {
  import opened Text
  import opened Wrappers

  type Bytes = seq<bv8>
  type Store = map<string, Bytes>

  /** What the base64 decoder makes of an argument. */
  datatype Decoded = Decoded(bytes: Bytes) | DecodeError(message: string)

  /** The response dictionaries, one variant per shape the service builds. */
  datatype Response =
    | Ok(data: string)                                        // status OK, data = message
    | OkList(files: seq<string>)                              // status OK, data = file names
    | OkStream(namafile: string, filesize: nat)               // status OK_STREAM
    | OkDeleted(namafile: string, before: nat, after: nat)    // status OK, sum = (before, after)
    | Error(data: string)                                     // status ERROR

  const RootDir: string := "files/"
  const IndexErrorMessage: string := "list index out of range"
  const EmptyNameMessage: string := "Filename cannot be empty"
  const NotFoundMessage: string := "File not found or is not a file"
  const UploadedMessage: string := "File berhasil diupload"
  const DeleteNotFoundMessage: string := "file tidak ditemukan"
  const NoFilesMessage: string := "tidak ada file di server"

  /** The text of the IsADirectoryError that `open(path, 'wb')` raises on a directory. */
  function IsADirectoryMessage(path: string): string
  {
    "[Errno 21] Is a directory: '" + path + "'"
  }

  /** The text of the ValueError that `open` raises on a path holding a NUL character. */
  const NullByteMessage: string := "embedded null byte"

  /** A name a directory entry can have. */
  predicate IsEntryName(n: string)
  {
    n != "" && n != "." && n != ".." && '/' !in n && '\0' !in n
  }

  /** A directory holds only entries with legal names. */
  predicate ValidStore(store: Store)
  {
    forall n :: n in store ==> IsEntryName(n)
  }

  /**
   * The pattern `*.*` of glob: a '.' somewhere in the name, and no leading
   * '.' (glob's `*` does not match hidden names).
   */
  predicate MatchesStarDotStar(n: string)
  {
    |n| > 0 && n[0] != '.' && '.' in n
  }

  /** The names that globbing the directory with `*.*` finds. */
  function GlobNames(store: Store): set<string>
  {
    set n | n in store && MatchesStarDotStar(n)
  }

  /** The number of names that globbing the directory with `*.*` finds. */
  function GlobCount(store: Store): (count: nat)
    ensures count <= |store|
  {
    SubsetSize(GlobNames(store), store.Keys);
    |GlobNames(store)|
  }

  /** A subset is no larger than its superset. */
  lemma {:induction false} SubsetSize<T>(a: set<T>, b: set<T>)
    requires a <= b
    ensures |a| <= |b|
    decreases b
  {
    if a != {} {
      var x :| x in a;
      SubsetSize(a - {x}, b - {x});
    }
  }

  /**
   * `get`: the metadata of a stored file, for the server to stream. The key
   * looked up is the basename of the argument, but the response echoes the
   * argument as given.
   */
  function Get(store: Store, params: seq<string>): (r: Response)
    ensures r.OkStream? || r.Error?
    ensures r.OkStream? <==> |params| > 0 && params[0] != "" && Basename(params[0]) in store
    ensures r.OkStream? ==> r.namafile == params[0] && r.filesize == |store[Basename(params[0])]|
    ensures r.Error? ==> r.data in {IndexErrorMessage, EmptyNameMessage, NotFoundMessage}
  {
    if |params| == 0 then Error(IndexErrorMessage)
    else
      var filename := params[0];
      if filename == "" then Error(EmptyNameMessage)
      else
        var key := Basename(filename);
        if key !in store then Error(NotFoundMessage)
        else OkStream(filename, |store[key]|)
  }

  /** The error cases of `get`, each with its message. */
  lemma GetErrors(store: Store, params: seq<string>)
    ensures |params| == 0 ==> Get(store, params) == Error(IndexErrorMessage)
    ensures |params| > 0 && params[0] == "" ==> Get(store, params) == Error(EmptyNameMessage)
    ensures |params| > 0 && params[0] != "" && Basename(params[0]) !in store ==>
              Get(store, params) == Error(NotFoundMessage)
  {
  }

  /**
   * Sanitisation: a request for a path is answered from the entry named by
   * its last component, whatever directories it names, and the path itself
   * is echoed back.
   */
  lemma GetTraversal(store: Store, dirs: string, name: string)
    requires IsEntryName(name)
    ensures Get(store, [dirs + "/" + name]) ==
              if name in store then OkStream(dirs + "/" + name, |store[name]|) else Error(NotFoundMessage)
  {
    BasenameAfterSlash(dirs, name);
  }

  /** No name `get` looks up contains '/': a flat store is never left. */
  lemma GetKeyIsPlain(store: Store, params: seq<string>)
    requires |params| > 0
    ensures '/' !in Basename(params[0])
    ensures Get(store, params).OkStream? ==> Basename(params[0]) in store
  {
  }

  /** The empty-name test of `upload` compares the joined path, which is never empty. */
  lemma UploadEmptyCheckIsDead(name: string)
    ensures RootDir + Basename(name) != ""
  {
  }

  /** Deleting one entry lowers the glob count by one exactly when the entry matches `*.*`. */
  lemma {:induction false} GlobCountAfterRemove(store: Store, name: string)
    requires name in store
    ensures GlobCount(store - {name}) == GlobCount(store) - (if MatchesStarDotStar(name) then 1 else 0)
  {
    assert GlobNames(store - {name}) == GlobNames(store) - {name};
  }

  /** A directory holding only names without '.' has a glob count of zero. */
  lemma GlobCountWithoutDots(store: Store)
    requires forall n :: n in store ==> '.' !in n
    ensures GlobCount(store) == 0
  {
    assert GlobNames(store) == {};
  }

  /** A response together with the directory it leaves behind. */
  datatype Outcome = Outcome(response: Response, store: Store)

  /**
   * What `upload` answers and leaves in the directory. The file is opened,
   * and so created empty or truncated, before the second argument is read
   * and decoded, so a missing or undecodable payload leaves an empty file
   * behind. A basename that names a directory ("", "." or "..") or holds a
   * NUL character makes `open` fail and leaves the directory as it was. The emptiness test on the joined
   * path never succeeds (UploadEmptyCheckIsDead).
   */
  function AfterUpload(store: Store, params: seq<string>, b64decode: string -> Decoded): (o: Outcome)
    ensures ValidStore(store) ==> ValidStore(o.store)
    ensures |params| == 0 ==> o == Outcome(Error(IndexErrorMessage), store)
    ensures |params| > 0 && '\0' in Basename(params[0]) ==>
              o == Outcome(Error(NullByteMessage), store)
    ensures |params| > 0 && !IsEntryName(Basename(params[0])) && '\0' !in Basename(params[0]) ==>
              o == Outcome(Error(IsADirectoryMessage(RootDir + Basename(params[0]))), store)
    ensures |params| == 1 && IsEntryName(Basename(params[0])) ==>
              o == Outcome(Error(IndexErrorMessage), store[Basename(params[0]) := []])
    ensures |params| >= 2 && IsEntryName(Basename(params[0])) && b64decode(params[1]).DecodeError? ==>
              o == Outcome(Error(b64decode(params[1]).message), store[Basename(params[0]) := []])
    ensures |params| >= 2 && IsEntryName(Basename(params[0])) && b64decode(params[1]).Decoded? ==>
              o == Outcome(Ok(UploadedMessage), store[Basename(params[0]) := b64decode(params[1]).bytes])
  {
    if |params| == 0 then Outcome(Error(IndexErrorMessage), store)
    else
      var key := Basename(params[0]);
      if '\0' in key then Outcome(Error(NullByteMessage), store)
      else if !IsEntryName(key) then Outcome(Error(IsADirectoryMessage(RootDir + key)), store)
      else
        var truncated := store[key := []];
        if |params| < 2 then Outcome(Error(IndexErrorMessage), truncated)
        else match b64decode(params[1])
          case DecodeError(message) => Outcome(Error(message), truncated)
          // the truncated file is overwritten with the decoded bytes
          case Decoded(bytes) => Outcome(Ok(UploadedMessage), store[key := bytes])
  }

  /** Only the entry named by the basename of the first argument can change. */
  lemma UploadTouchesOneKey(store: Store, params: seq<string>, b64decode: string -> Decoded, other: string)
    requires |params| == 0 || other != Basename(params[0])
    ensures other in AfterUpload(store, params, b64decode).store <==> other in store
    ensures other in store ==> AfterUpload(store, params, b64decode).store[other] == store[other]
  {
  }

  /** What an upload with both arguments and a legal name leaves under that name. */
  lemma UploadWrites(store: Store, name: string, payload: string, b64decode: string -> Decoded)
    requires IsEntryName(Basename(name))
    ensures AfterUpload(store, [name, payload], b64decode)
              == if b64decode(payload).Decoded?
                 then Outcome(Ok(UploadedMessage), store[Basename(name) := b64decode(payload).bytes])
                 else Outcome(Error(b64decode(payload).message), store[Basename(name) := []])
  {
    assert [name, payload][0] == name && [name, payload][1] == payload;
  }

  /** Writing an entry twice leaves what the second write alone leaves. */
  lemma OverwriteTwice(store: Store, key: string, first: Bytes, second: Bytes)
    ensures store[key := first][key := second] == store[key := second]
  {
  }

  /** Last writer wins: a successful upload replaces whatever an earlier upload to the same name left. */
  lemma LastWriterWins(store: Store, name: string, first: string, second: string, b64decode: string -> Decoded)
    requires IsEntryName(Basename(name))
    requires b64decode(second).Decoded?
    ensures AfterUpload(AfterUpload(store, [name, first], b64decode).store, [name, second], b64decode)
              == AfterUpload(store, [name, second], b64decode)
  {
    var key := Basename(name);
    var written := if b64decode(first).Decoded? then b64decode(first).bytes else [];
    UploadWrites(store, name, first, b64decode);
    var middle := AfterUpload(store, [name, first], b64decode).store;
    assert middle == store[key := written];
    UploadWrites(middle, name, second, b64decode);
    UploadWrites(store, name, second, b64decode);
    OverwriteTwice(store, key, written, b64decode(second).bytes);
  }

  /** Round trip: after a successful upload, `get` of the same name reports the decoded payload's size. */
  lemma UploadThenGet(store: Store, name: string, payload: string, b64decode: string -> Decoded)
    requires IsEntryName(Basename(name))
    requires b64decode(payload).Decoded?
    ensures Get(AfterUpload(store, [name, payload], b64decode).store, [name])
              == OkStream(name, |b64decode(payload).bytes|)
  {
    assert name != "";
  }

  /** An undecodable payload still truncates the target, and `get` then reports an empty file. */
  lemma UndecodableUploadTruncates(store: Store, name: string, payload: string, b64decode: string -> Decoded)
    requires IsEntryName(Basename(name))
    requires b64decode(payload).DecodeError?
    ensures AfterUpload(store, [name, payload], b64decode).response.Error?
    ensures Get(AfterUpload(store, [name, payload], b64decode).store, [name]) == OkStream(name, 0)
  {
    assert name != "";
  }

  /** The service object; its one piece of state is the directory's content. */
  class FileInterface {
    var store: Store

    ghost predicate Valid()
      reads this
    {
      ValidStore(store)
    }

    /** `__init__`: the directory as found (it is created empty when absent). */
    constructor (existing: Store)
      requires ValidStore(existing)
      ensures Valid() && store == existing
    {
      store := existing;
    }

    /**
     * `list`: every name glob finds, each once. The order is the order the
     * file system yields, so the model chooses it arbitrarily.
     */
    method List() returns (r: Response)
      ensures r.OkList?
      ensures forall n :: n in r.files <==> n in store && MatchesStarDotStar(n)
      ensures forall i, j :: 0 <= i < j < |r.files| ==> r.files[i] != r.files[j]
      ensures |r.files| == GlobCount(store)
    {
      var pending := GlobNames(store);
      var files: seq<string> := [];
      while pending != {}
        invariant pending <= GlobNames(store)
        invariant forall n :: n in files <==> n in GlobNames(store) && n !in pending
        invariant forall i, j :: 0 <= i < j < |files| ==> files[i] != files[j]
        invariant |files| + |pending| == GlobCount(store)
        decreases |pending|
      {
        var n :| n in pending;
        files := files + [n];
        pending := pending - {n};
      }
      r := OkList(files);
    }

    /** `upload`: the directory becomes the one AfterUpload describes. */
    method Upload(params: seq<string>, b64decode: string -> Decoded) returns (r: Response)
      requires Valid()
      modifies this
      ensures Valid()
      ensures r == AfterUpload(old(store), params, b64decode).response
      ensures store == AfterUpload(old(store), params, b64decode).store
    {
      if |params| == 0 {
        return Error(IndexErrorMessage);
      }
      var key := Basename(params[0]);
      var path := RootDir + key;
      // the emptiness test on `path` never succeeds: see UploadEmptyCheckIsDead
      if !IsEntryName(key) {
        // `open` refuses a NUL character before it reaches the file system
        r := if '\0' in key then Error(NullByteMessage) else Error(IsADirectoryMessage(path));
        return;
      }
      store := store[key := []];
      if |params| < 2 {
        return Error(IndexErrorMessage);
      }
      match b64decode(params[1])
      case DecodeError(message) =>
        r := Error(message);
      case Decoded(bytes) =>
        store := store[key := bytes];
        r := Ok(UploadedMessage);
    }

    /**
     * `delete`: removes the entry named by the argument as given, without
     * taking its basename. Both counts come from glob, so entries without a
     * '.' are not counted: deleting one leaves the count unchanged, and
     * deleting the only files when none of them has a '.' is refused with
     * "tidak ada file di server". An empty name gets no response at all.
     */
    method Delete(params: seq<string>) returns (r: Option<Response>)
      requires Valid()
      modifies this
      ensures Valid()
      ensures |params| == 0 ==> r == Some(Error(IndexErrorMessage)) && store == old(store)
      ensures |params| > 0 && params[0] == "" ==> r == None && store == old(store)
      ensures |params| > 0 && params[0] != "" && params[0] !in old(store) ==>
                r == Some(Error(DeleteNotFoundMessage)) && store == old(store)
      ensures |params| > 0 && params[0] in old(store) && GlobCount(old(store)) == 0 ==>
                r == Some(Error(NoFilesMessage)) && store == old(store)
      ensures |params| > 0 && params[0] in old(store) && GlobCount(old(store)) > 0 ==>
                && store == old(store) - {params[0]}
                && r == Some(OkDeleted(params[0], GlobCount(old(store)), GlobCount(store)))
                && GlobCount(store) == GlobCount(old(store)) - (if MatchesStarDotStar(params[0]) then 1 else 0)
    {
      var beforeSum := GlobCount(store);
      if |params| == 0 {
        return Some(Error(IndexErrorMessage));
      }
      var filename := params[0];
      if filename == "" {
        return None;
      }
      if filename !in store {
        return Some(Error(DeleteNotFoundMessage));
      } else if beforeSum == 0 {
        return Some(Error(NoFilesMessage));
      }
      GlobCountAfterRemove(store, filename);
      store := store - {filename};
      var afterSum := GlobCount(store);
      r := Some(OkDeleted(filename, beforeSum, afterSum));
    }
  }

  /** The upload of the example session stores the two decoded bytes under "a.bin". */
  lemma ExampleUpload(b64decode: string -> Decoded)
    requires b64decode("aGk=") == Decoded([0x68, 0x69])
    ensures AfterUpload(map[], ["a.bin", "aGk="], b64decode) == Outcome(Ok(UploadedMessage), map["a.bin" := [0x68, 0x69]])
  {
    BasenameOfPlainName("a.bin");
    assert ["a.bin", "aGk="][0] == "a.bin" && ["a.bin", "aGk="][1] == "aGk=";
    assert IsEntryName("a.bin");
  }

  /** A directory holding only "a.bin" globs to exactly that name. */
  lemma ExampleGlob(content: Bytes)
    ensures GlobNames(map["a.bin" := content]) == {"a.bin"}
    ensures GlobCount(map["a.bin" := content]) == 1
  {
    assert MatchesStarDotStar("a.bin");
  }

  /** An empty directory globs to nothing. */
  lemma EmptyGlob()
    ensures GlobNames(map[]) == {} && GlobCount(map[]) == 0
  {
    assert GlobNames(map[]) == {};
  }

  /** A listing of one name, holding "a.bin" and nothing else, is exactly ["a.bin"]. */
  lemma OnlyListed(files: seq<string>)
    requires |files| == 1 && forall n :: n in files <==> n == "a.bin"
    ensures files == ["a.bin"]
  {
    assert files[0] in files;
  }

  /**
   * A LIST/UPLOAD/GET/DELETE session on an empty directory: LIST, UPLOAD
   * a.bin, LIST, GET a.bin, DELETE a.bin.
   */
  method ExampleSession(b64decode: string -> Decoded) returns (list1: Response, upload: Response,
                                                               list2: Response, get: Response,
                                                               delete: Option<Response>)
    requires b64decode("aGk=") == Decoded([0x68, 0x69])
    ensures list1 == OkList([])
    ensures upload == Ok(UploadedMessage)
    ensures list2 == OkList(["a.bin"])
    ensures get == OkStream("a.bin", 2)
    ensures delete == Some(OkDeleted("a.bin", 1, 0))
  {
    var fi := new FileInterface(map[]);
    list1, upload := ExampleUploadPhase(fi, b64decode);
    list2, get, delete := ExampleDeletePhase(fi);
  }

  /** The first half of the example session: LIST and UPLOAD a.bin on an empty directory. */
  method ExampleUploadPhase(fi: FileInterface, b64decode: string -> Decoded) returns (list1: Response, upload: Response)
    requires fi.Valid() && fi.store == map[]
    requires b64decode("aGk=") == Decoded([0x68, 0x69])
    modifies fi
    ensures fi.Valid() && fi.store == map["a.bin" := [0x68, 0x69]]
    ensures list1 == OkList([]) && upload == Ok(UploadedMessage)
  {
    EmptyGlob();
    list1 := fi.List();
    ExampleUpload(b64decode);
    upload := fi.Upload(["a.bin", "aGk="], b64decode);
  }

  /** The second half of the example session: LIST, GET a.bin and DELETE a.bin. */
  method ExampleDeletePhase(fi: FileInterface) returns (list2: Response, get: Response, delete: Option<Response>)
    requires fi.Valid() && fi.store == map["a.bin" := [0x68, 0x69]]
    modifies fi
    ensures list2 == OkList(["a.bin"])
    ensures get == OkStream("a.bin", 2)
    ensures delete == Some(OkDeleted("a.bin", 1, 0))
  {
    var stored := fi.store;
    ExampleGlob([0x68, 0x69]);
    EmptyGlob();
    list2 := fi.List();
    OnlyListed(list2.files);
    BasenameOfPlainName("a.bin");
    get := Get(stored, ["a.bin"]);
    assert stored - {"a.bin"} == map[];
    delete := fi.Delete(["a.bin"]);
  }

  /** A file whose name has no '.', alone in the directory, cannot be deleted. */
  method DeleteOnlyUndottedFile() returns (r: Option<Response>)
    ensures r == Some(Error(NoFilesMessage))
  {
    var fi := new FileInterface(map["README" := [0x41]]);
    GlobCountWithoutDots(fi.store);
    r := fi.Delete(["README"]);
  }
}
