/**
 * The hosted blob store as the dashboard sees it: objects addressed by
 * slash-separated paths, a download URL per object, listing of the
 * objects directly inside a folder, upload, download and delete.
 *
 * Which calls fail is fixed in advance by `faults` (a transport or
 * permission error for exactly those calls), so every outcome the
 * dashboard has to handle can be stated and reasoned about.  Every call
 * attempted is appended to `log`.
 */
module ObjectStorage {
  import opened Text
  import opened Wrappers

  type Bytes = seq<bv8>
  type Path = string

  /** A storage call, as it appears in the log and in the fault set. */
  datatype Op =
    | ListOp(folder: Path)     // listAll(ref(folder))
    | UrlOp(path: Path)        // getDownloadURL(ref(path))
    | ReadOp(path: Path)       // fetch(downloadURL) followed by res.blob()
    | PutOp(path: Path)        // uploadBytesResumable(ref(path), bytes)
    | DeleteOp(path: Path)     // deleteObject(ref(path))

  /** The storage service's download host. */
  const UrlHost: string := "https://firebasestorage.googleapis.com"

  /** The API's path up to the bucket's name. */
  const UrlApi: string := "/v0/b/"

  /** The bucket's name, a placeholder: a bucket name has no slash. */
  const Bucket: string := "portfolio"

  /** Where download URLs of objects in `bucket` start. */
  function BucketBase(bucket: string): string {
    UrlHost + UrlApi + bucket + "/o/"
  }

  /** Where download URLs of this bucket start. */
  const UrlBase: string := BucketBase(Bucket)

  /** What follows the object's path in a download URL (the access token is not modelled). */
  const UrlQuery: string := "?alt=media"

  /** `encodeURIComponent` on one character: the slash, `%`, `?` and `#` are escaped. */
  function EncodeChar(c: char): (e: string)
    ensures '/' !in e
  {
    if c == '/' then "%2F"
    else if c == '%' then "%25"
    else if c == '?' then "%3F"
    else if c == '#' then "%23"
    else [c]
  }

  /** The object path as it appears in a download URL. */
  function EncodePath(p: Path): (e: string)
    ensures '/' !in e
  {
    if |p| == 0 then "" else EncodeChar(p[0]) + EncodePath(p[1..])
  }

  /** Undoes the escapes `EncodePath` writes. */
  function DecodePath(e: string): Path
    decreases |e|
  {
    if |e| == 0 then ""
    else if |e| >= 3 && e[0] == '%' && e[1] == '2' && e[2] == 'F' then "/" + DecodePath(e[3..])
    else if |e| >= 3 && e[0] == '%' && e[1] == '2' && e[2] == '5' then "%" + DecodePath(e[3..])
    else if |e| >= 3 && e[0] == '%' && e[1] == '3' && e[2] == 'F' then "?" + DecodePath(e[3..])
    else if |e| >= 3 && e[0] == '%' && e[1] == '2' && e[2] == '3' then "#" + DecodePath(e[3..])
    else [e[0]] + DecodePath(e[1..])
  }

  lemma DecodeChar(c: char, rest: string)
    ensures DecodePath(EncodeChar(c) + rest) == [c] + DecodePath(rest)
  {
    var e := EncodeChar(c) + rest;
    if c == '/' || c == '%' || c == '?' || c == '#' {
      assert e[3..] == rest;
    } else {
      assert e[0] == c && e[1..] == rest;
    }
  }

  /** Decoding an encoded path gives the path back. */
  lemma {:induction false} DecodeEncode(p: Path)
    ensures DecodePath(EncodePath(p)) == p
    decreases |p|
  {
    if |p| > 0 {
      DecodeChar(p[0], EncodePath(p[1..]));
      DecodeEncode(p[1..]);
      assert [p[0]] + p[1..] == p;
    }
  }

  /** The object a download URL of this bucket points at: `ref(storage, url).fullPath`. */
  function PathOfUrl(url: string): Option<Path> {
    if |url| >= |UrlBase| + |UrlQuery| && url[..|UrlBase|] == UrlBase && url[|url| - |UrlQuery|..] == UrlQuery
    then Some(DecodePath(url[|UrlBase|..|url| - |UrlQuery|]))
    else None
  }

  /** The pieces of a URL built from the base, an encoded path and the query. */
  lemma UrlParts(e: string)
    ensures var url := UrlBase + e + UrlQuery;
      && url[..|UrlBase|] == UrlBase
      && url[|url| - |UrlQuery|..] == UrlQuery
      && url[|UrlBase|..|url| - |UrlQuery|] == e
  {
    var url := UrlBase + e + UrlQuery;
    assert url == UrlBase + (e + UrlQuery);
  }

  lemma NoSlashAfterBase(e: string)
    requires '/' !in e
    ensures var url := UrlBase + e + UrlQuery;
      forall k :: |UrlBase| <= k < |url| ==> url[k] != '/'
  {
    var url := UrlBase + e + UrlQuery;
    assert '/' !in UrlQuery;
    forall k | |UrlBase| <= k < |url|
      ensures url[k] != '/'
    {
      if k < |UrlBase| + |e| {
        assert url[k] == e[k - |UrlBase|];
      } else {
        assert url[k] == UrlQuery[k - |UrlBase| - |e|];
      }
    }
  }

  /** `getDownloadURL`'s result for the object at `path`: the encoded path between the base and the query. */
  function UrlOf(path: Path): (url: string)
    ensures PathOfUrl(url) == Some(path)
    ensures |url| > |UrlBase| && url[..|UrlBase|] == UrlBase
    ensures forall k :: |UrlBase| <= k < |url| ==> url[k] != '/'
  {
    var e := EncodePath(path);
    UrlParts(e);
    NoSlashAfterBase(e);
    DecodeEncode(path);
    UrlBase + e + UrlQuery
  }

  /** Different objects have different download URLs. */
  lemma UrlOfInjective(p: Path, q: Path)
    requires UrlOf(p) == UrlOf(q)
    ensures p == q
  {
  }

  /** `path` names an object directly inside `folder`: what `listAll(ref(folder)).items` returns. */
  predicate InFolder(path: Path, folder: Path) {
    |folder| + 1 < |path| && path[..|folder| + 1] == folder + "/" && '/' !in path[|folder| + 1..]
  }

  /** An object lies directly inside one folder only. */
  lemma FolderUnique(path: Path, f1: Path, f2: Path)
    requires InFolder(path, f1) && InFolder(path, f2)
    ensures f1 == f2
  {
    if |f1| < |f2| {
      NoSlashInName(path, f1, |f2|);
    } else if |f2| < |f1| {
      NoSlashInName(path, f2, |f1|);
    }
    assert f1 == path[..|f1|] && f2 == path[..|f2|];
  }

  lemma NoSlashInName(path: Path, folder: Path, k: int)
    requires InFolder(path, folder) && |folder| < k < |path|
    ensures path[k] != '/'
  {
    assert path[k] == path[|folder| + 1..][k - |folder| - 1];
  }

  /** A non-empty name without a slash, put after `folder/`, lies directly inside `folder`. */
  lemma ChildInFolder(folder: Path, name: string)
    requires name != "" && '/' !in name
    ensures InFolder(folder + "/" + name, folder)
  {
    var p := folder + "/" + name;
    assert p[..|folder| + 1] == folder + "/";
    assert p[|folder| + 1..] == name;
  }

  /** `path` ends in `/name`: `name` is its last segment. */
  predicate EndsInName(path: Path, name: string) {
    |name| < |path| && path[|path| - |name| - 1..] == "/" + name
  }

  /** The last segment of `folder/a` is `a` and nothing else. */
  lemma LastSegmentUnique(folder: Path, a: string, b: string)
    requires '/' !in a && '/' !in b
    requires EndsInName(folder + "/" + a, b)
    ensures a == b
  {
    var p := folder + "/" + a;
    assert p[|p| - |b| - 1] == '/';
    assert forall k :: |p| - |a| <= k < |p| ==> p[k] == a[k - (|p| - |a|)];
    assert |b| >= |a|;
    assert p[|p| - |a| - 1] == '/';
    assert forall k :: 0 <= k < |b| ==> b[k] == p[|p| - |b| + k];
    assert |b| <= |a|;
    assert a == p[|p| - |a|..];
  }

  lemma ChildEndsInName(folder: Path, name: string)
    ensures EndsInName(folder + "/" + name, name)
  {
    var p := folder + "/" + name;
    assert p[|p| - |name| - 1..] == "/" + name;
  }

  /** No object of `objects` ends in a name `uuidv4()` has still to hand out. */
  ghost predicate FreshFrom(objects: map<Path, Bytes>, minted: nat) {
    forall p, n: nat :: p in objects && n >= minted ==> !EndsInName(p, Digits(n))
  }

  /** Storing under the name minted as number `m` keeps the later names fresh. */
  lemma PutMintedKeepsFresh(objects: map<Path, Bytes>, minted: nat, folder: Path, m: nat, bytes: Bytes)
    requires FreshFrom(objects, minted) && m < minted
    ensures FreshFrom(objects[folder + "/" + Digits(m) := bytes], minted)
  {
    forall n: nat | n >= minted
      ensures !EndsInName(folder + "/" + Digits(m), Digits(n))
    {
      if EndsInName(folder + "/" + Digits(m), Digits(n)) {
        LastSegmentUnique(folder, Digits(m), Digits(n));
        DigitsInjective(m, n);
      }
    }
  }

  /** `items` lists every object directly inside `folder`, each once. */
  ghost predicate IsListing(items: seq<Path>, objects: map<Path, Bytes>, folder: Path) {
    && (forall i, j :: 0 <= i < j < |items| ==> items[i] != items[j])
    && (forall p :: p in items <==> p in objects && InFolder(p, folder))
  }

  class ObjectStore {
    var objects: map<Path, Bytes>
    /** How many names `uuidv4()` has handed out so far. */
    var minted: nat
    var log: seq<Op>
    const faults: set<Op>

    /** Every object was stored under a name that is not one of the numbers `uuidv4()` hands out later. */
    ghost predicate Valid()
      reads this
    {
      FreshFrom(objects, minted)
    }

    constructor (objects: map<Path, Bytes>, faults: set<Op>)
      requires FreshFrom(objects, 0)
      ensures Valid()
      ensures this.objects == objects && this.faults == faults
      ensures minted == 0 && log == []
    {
      this.objects := objects;
      this.faults := faults;
      minted := 0;
      log := [];
    }

    /** `listAll(ref(folder))`: the objects directly inside `folder`, in the store's order. */
    method List(folder: Path) returns (items: Option<seq<Path>>)
      modifies this`log
      ensures log == old(log) + [ListOp(folder)]
      ensures items.None? <==> ListOp(folder) in faults
      ensures items.Some? ==> IsListing(items.value, objects, folder)
    {
      log := log + [ListOp(folder)];
      if ListOp(folder) in faults {
        return None;
      }
      var remaining := set p | p in objects && InFolder(p, folder);
      var listed: seq<Path> := [];
      while remaining != {}
        invariant forall i, j :: 0 <= i < j < |listed| ==> listed[i] != listed[j]
        invariant forall p :: p in listed ==> p !in remaining
        invariant forall p :: p in objects && InFolder(p, folder) <==> p in listed || p in remaining
        decreases remaining
      {
        var p :| p in remaining;
        listed := listed + [p];
        remaining := remaining - {p};
      }
      return Some(listed);
    }

    /** `getDownloadURL(ref(path))`; fails for a missing object. */
    method DownloadUrl(path: Path) returns (url: Option<string>)
      modifies this`log
      ensures log == old(log) + [UrlOp(path)]
      ensures url == if path in objects && UrlOp(path) !in faults then Some(UrlOf(path)) else None
    {
      log := log + [UrlOp(path)];
      if path in objects && UrlOp(path) !in faults {
        url := Some(UrlOf(path));
      } else {
        url := None;
      }
    }

    /**
     * Downloading the object at `path` through its URL. A missing object or
     * a faulted download is a failure: the error response `fetch` would
     * resolve with is not passed on as bytes.
     */
    method Read(path: Path) returns (bytes: Option<Bytes>)
      modifies this`log
      ensures log == old(log) + [ReadOp(path)]
      ensures bytes == if path in objects && ReadOp(path) !in faults then Some(objects[path]) else None
    {
      log := log + [ReadOp(path)];
      if path in objects && ReadOp(path) !in faults {
        bytes := Some(objects[path]);
      } else {
        bytes := None;
      }
    }

    /** `uploadBytesResumable(ref(path), bytes)` run to completion; replaces any object at `path`. */
    method Put(path: Path, bytes: Bytes) returns (ok: bool)
      modifies this`log, this`objects
      ensures log == old(log) + [PutOp(path)]
      ensures ok == (PutOp(path) !in faults)
      ensures objects == if ok then old(objects)[path := bytes] else old(objects)
    {
      log := log + [PutOp(path)];
      ok := PutOp(path) !in faults;
      if ok {
        objects := objects[path := bytes];
      }
    }

    /** `deleteObject(ref(path))`; fails for a missing object. */
    method Delete(path: Path) returns (ok: bool)
      modifies this`log, this`objects
      ensures log == old(log) + [DeleteOp(path)]
      ensures ok == (path in old(objects) && DeleteOp(path) !in faults)
      ensures objects == if ok then old(objects) - {path} else old(objects)
    {
      log := log + [DeleteOp(path)];
      ok := path in objects && DeleteOp(path) !in faults;
      if ok {
        objects := objects - {path};
      }
    }

    /** `uuidv4()`: a name no stored object has; it has no slash. */
    method NewName() returns (name: string)
      requires Valid()
      modifies this`minted
      ensures Valid()
      ensures name == Digits(old(minted)) && minted == old(minted) + 1
      ensures name != "" && '/' !in name
      ensures forall p :: EndsInName(p, name) ==> p !in objects
    {
      name := Digits(minted);
      minted := minted + 1;
    }
  }
}
