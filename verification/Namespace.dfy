/**
 * The Hyperspace namespace: a tree of directories and files with attributes,
 * kept as the sorted keys of a flat database.  A directory is a key that ends
 * in a slash, a file one that does not, and an attribute is the key of its
 * owner, a colon and its name.
 */
module Namespace {
  import opened Sequences
  import opened Lexicographic
  import opened AdjacentDuplicates
  import Serialization

  type Value = Serialization.bytes

  type Database = map<string, Value>

  datatype Error =
    | FileNotFound | FileExists | BadPathname | IsDirectory | DirNotEmpty | AttrNotFound | FailedExpectation

  datatype Result<T> = Ok(value: T) | Err(error: Error)

  datatype DirEntry = DirEntry(name: string, isDir: bool)

  // ----- Keys -----

  /** The first position of a character, or the length. */
  function Find(s: string, c: char): (i: nat)
    ensures i <= |s| && (forall j :: 0 <= j < i ==> s[j] != c) && (i < |s| ==> s[i] == c)
  {
    if s == [] || s[0] == c then 0 else 1 + Find(s[1..], c)
  }

  /** The position behind the last slash, 0 when there is none. */
  function BehindLastSlash(s: string): (i: nat)
    ensures i <= |s| && (forall j :: i <= j < |s| ==> s[j] != '/') && (i > 0 ==> s[i - 1] == '/')
  {
    if s == [] then 0 else if s[|s| - 1] == '/' then |s| else BehindLastSlash(s[..|s| - 1])
  }

  predicate EndsInSlash(s: string) {
    s != [] && s[|s| - 1] == '/'
  }

  /** The key a directory is listed by. */
  function DirKey(fname: string): (dir: string) {
    if EndsInSlash(fname) then fname else fname + "/"
  }

  /** The key of the directory a path is in. */
  function ParentKey(name: string): string {
    name[..BehindLastSlash(name)]
  }

  /** The key of the node an attribute key belongs to; a node key itself. */
  function Owner(k: string): string {
    k[..Find(k, ':')]
  }

  /** A path as callers give it: absolute, without colons and without a trailing slash. */
  predicate ValidName(name: string) {
    |name| > 1 && name[0] == '/' && name[|name| - 1] != '/' && ':' !in name
  }

  /** The root, or a path as callers give it. */
  predicate ValidNode(name: string) {
    name == "/" || ValidName(name)
  }

  predicate ValidAttr(aname: string) {
    '/' !in aname
  }

  // ----- Operations on the database -----

  function Exists(db: Database, fname: string): bool {
    fname in db || fname + "/" in db
  }

  function Mkdir(db: Database, name: string): (Database, Result<()>) {
    var dir := DirKey(name);
    if ParentKey(name) !in db then (db, Err(FileNotFound))
    else if dir in db then (db, Err(FileExists))
    else (db[dir := []], Ok(()))
  }

  /** The new file, and its mark when it is temporary, get the value of the directory. */
  function Create(db: Database, fname: string, temp: bool): (Database, Result<()>) {
    if Exists(db, fname) then (db, Err(FileExists))
    else if EndsInSlash(fname) then (db, Err(IsDirectory))
    else if ParentKey(fname) !in db then (db, Err(BadPathname))
    else
      var made := db[fname := db[ParentKey(fname)]];
      (if temp then made[fname + ":temp" := db[ParentKey(fname)]] else made, Ok(()))
  }

  function AttrKey(db: Database, fname: string, aname: string): Result<string> {
    if fname in db then Ok(fname + ":" + aname)
    else if fname + "/" in db then Ok(fname + "/" + ":" + aname)
    else Err(FileNotFound)
  }

  function GetAttr(db: Database, fname: string, aname: string): Result<Option<Value>> {
    match AttrKey(db, fname, aname)
    case Err(e) => Err(e)
    case Ok(key) => Ok(if key in db then Some(db[key]) else None)
  }

  function SetAttr(db: Database, fname: string, aname: string, value: Value): (Database, Result<()>) {
    match AttrKey(db, fname, aname)
    case Err(e) => (db, Err(e))
    case Ok(key) => (db[key := value], Ok(()))
  }

  function DelAttr(db: Database, fname: string, aname: string): (Database, Result<()>) {
    match AttrKey(db, fname, aname)
    case Err(e) => (db, Err(e))
    case Ok(key) => if key in db then (db - {key}, Ok(())) else (db, Err(AttrNotFound))
  }

  // ----- Removing a node -----

  /** A key below a directory of the name. */
  predicate Blocks(k: string, name: string) {
    |k| > |name| + 1 && k[|name|] == '/' && k[|name| + 1] != ':'
  }

  predicate LooksLikeDir(k: string, name: string) {
    |k| > |name| && k[|name|] == '/' && !Blocks(k, name)
  }

  predicate LooksLikeFile(k: string, name: string) {
    |k| <= |name| || k[|name|] == ':'
  }

  /** The keys the scan looks at: those with the name as prefix, and the first one in any case. */
  function Scanned(keys: set<string>, name: string, first: Option<string>): set<string> {
    set k | k in keys && (name <= k || Some(k) == first)
  }

  function Doomed(keys: set<string>, name: string, first: Option<string>): set<string> {
    set k | k in Scanned(keys, name, first) && (LooksLikeDir(k, name) || LooksLikeFile(k, name))
  }

  ghost function Unlink(db: Database, name: string): (Database, Result<()>) {
    var first := First(db.Keys, name);
    var scanned := Scanned(db.Keys, name, first);
    if exists k :: k in scanned && Blocks(k, name) then (db, Err(DirNotEmpty))
    else if
      && (exists k :: k in scanned && LooksLikeDir(k, name))
      && (exists k :: k in scanned && LooksLikeFile(k, name))
    then
      (db, Err(FailedExpectation))
    else if Doomed(db.Keys, name, first) == {} then (db, Err(FileNotFound))
    else (db - Doomed(db.Keys, name, first), Ok(()))
  }

  /** What a scan has found so far. */
  datatype Scan = Scan(keys: seq<string>, dir: bool, file: bool, blocked: bool)

  ghost predicate Distinct(keys: seq<string>) {
    forall i, j :: 0 <= i < j < |keys| ==> keys[i] != keys[j]
  }

  function Collect(scan: Scan, k: string, name: string): Scan {
    if LooksLikeDir(k, name) then scan.(keys := scan.keys + [k], dir := true)
    else if LooksLikeFile(k, name) then scan.(keys := scan.keys + [k], file := true)
    else scan
  }

  /** The scan has the keys to delete among those passed, each once, and what they look like. */
  ghost predicate Collected(scan: Scan, passed: set<string>, name: string) {
    && Distinct(scan.keys)
    && (forall k :: k in scan.keys <==> k in passed && (LooksLikeDir(k, name) || LooksLikeFile(k, name)))
    && (scan.dir <==> exists k :: k in passed && LooksLikeDir(k, name))
    && (scan.file <==> exists k :: k in passed && LooksLikeFile(k, name))
    && (forall k :: k in passed ==> !Blocks(k, name))
  }

  lemma Collects(scan: Scan, passed: set<string>, k: string, name: string)
    requires Collected(scan, passed, name) && k !in passed && !Blocks(k, name)
    ensures Collected(Collect(scan, k, name), passed + {k}, name)
  {
  }

  lemma CollectedNothing(name: string)
    ensures Collected(Scan([], false, false, false), {}, name)
  {
  }

  lemma NoneBlocks(scan: Scan, passed: set<string>, name: string)
    requires Collected(scan, passed, name)
    ensures forall k :: k in passed ==> !Blocks(k, name)
  {
  }

  lemma StartsAt(keys: set<string>, name: string, first: Option<string>)
    requires FirstFrom(keys, name, first)
    ensures first.Some? ==> first.value in keys && Leq(name, first.value)
  {
  }

  lemma NothingPassed(keys: set<string>, name: string, first: Option<string>)
    requires FirstFrom(keys, name, first)
    ensures Scanned(keys, name, first) - Ahead(keys, first) == {}
  {
    FromPrefix(keys, name, first);
    if first.Some? {
      Reflexive(first.value);
    }
  }

  /** A step of the scan passes one key. */
  lemma PassedOne(keys: set<string>, name: string, first: Option<string>, k: string, next: Option<string>)
    requires k in Scanned(keys, name, first) && Leq(name, k) && FirstAfter(keys, k, next)
    requires Some(k) == first || (first.Some? && first.value !in Ahead(keys, Some(k)))
    ensures var scanned := Scanned(keys, name, first);
            && scanned - Ahead(keys, next) == scanned - Ahead(keys, Some(k)) + {k}
            && k !in scanned - Ahead(keys, Some(k))
    ensures |Ahead(keys, next)| < |Ahead(keys, Some(k))|
    ensures next.Some? ==> next.value in keys && Leq(name, next.value)
    ensures next != first && first.Some? && first.value !in Ahead(keys, next)
  {
    Advance(keys, k, next);
    MovedOn(name, k, next);
    if next.Some? {
      Reflexive(next.value);
    }
  }

  /** When the scan stops, it has passed all it was to look at. */
  lemma AllPassed(keys: set<string>, name: string, first: Option<string>, cursor: Option<string>)
    requires cursor.Some? ==> Leq(name, cursor.value) && cursor != first && !(name <= cursor.value)
    requires cursor != first ==> first.Some? && first.value !in Ahead(keys, cursor)
    ensures Scanned(keys, name, first) - Ahead(keys, cursor) == Scanned(keys, name, first)
  {
    PrefixPassed(keys, name, cursor);
  }

  // ----- Listing a directory -----

  /** What a key says about the directory whose key is its prefix: the name and kind of one child. */
  function EntryOf(rest: string): DirEntry {
    if Find(rest, '/') < |rest| then DirEntry(rest[..Find(rest, '/')], true)
    else DirEntry(rest[..Find(rest, ':')], false)
  }

  /** The key is of the directory's subtree, and not of the directory itself or one of its attributes. */
  predicate Below(k: string, dir: string) {
    dir <= k && |k| > |dir| && k[|dir|] != ':'
  }

  /** Some key of the subtree gives the entry. */
  ghost predicate Genuine(keys: set<string>, e: DirEntry, dir: string) {
    exists k :: k in keys && Below(k, dir) && EntryOf(k[|dir|..]) == e
  }

  /** The child that a key of the subtree belongs to is in the listing, if it has a name. */
  ghost predicate Listed(listing: seq<DirEntry>, k: string, dir: string) {
    Below(k, dir) && EntryOf(k[|dir|..]).name != "" ==>
      exists i :: 0 <= i < |listing| && listing[i].name == EntryOf(k[|dir|..]).name
  }

  /** The key at or behind the directory's is not of its subtree. */
  ghost predicate Misses(keys: set<string>, dir: string) {
    First(keys, dir).Some? && !(dir <= First(keys, dir).value)
  }

  /** The listing has nothing but entries of keys of the subtree, and the names of all of them. */
  ghost predicate Lists(keys: set<string>, dir: string, listing: seq<DirEntry>) {
    && (forall i :: 0 <= i < |listing| ==> Genuine(keys, listing[i], dir))
    && (forall k :: k in keys && dir <= k ==> Listed(listing, k, dir))
  }

  /** One key of the scan: its entry is added unless it has the name that was added last. */
  function Noted(listing: seq<DirEntry>, last: string, k: string, dir: string): (seq<DirEntry>, string) {
    if !Below(k, dir) || EntryOf(k[|dir|..]).name == last then (listing, last)
    else (listing + [EntryOf(k[|dir|..])], EntryOf(k[|dir|..]).name)
  }

  /** The name that was added last is in the listing. */
  ghost predicate Remembers(listing: seq<DirEntry>, last: string) {
    last != "" ==> exists i :: 0 <= i < |listing| && listing[i].name == last
  }

  lemma NotedKeeps(keys: set<string>, listing: seq<DirEntry>, last: string, k: string, dir: string)
    requires k in keys && Remembers(listing, last)
    requires forall i :: 0 <= i < |listing| ==> Genuine(keys, listing[i], dir)
    ensures var (l, n) := Noted(listing, last, k, dir);
            Remembers(l, n) && Listed(l, k, dir) && listing <= l &&
            forall i :: 0 <= i < |l| ==> Genuine(keys, l[i], dir)
  {
    var (l, n) := Noted(listing, last, k, dir);
    if l != listing {
      assert l[|listing|].name == n;
    }
  }

  lemma StaysListed(listing: seq<DirEntry>, longer: seq<DirEntry>, k: string, dir: string)
    requires Listed(listing, k, dir) && listing <= longer
    ensures Listed(longer, k, dir)
  {
    if Below(k, dir) && EntryOf(k[|dir|..]).name != "" {
      var i :| 0 <= i < |listing| && listing[i].name == EntryOf(k[|dir|..]).name;
      assert longer[i] == listing[i];
    }
  }

  // ----- The order of a listing -----

  function Names(listing: seq<DirEntry>): seq<string> {
    seq(|listing|, i requires 0 <= i < |listing| => listing[i].name)
  }

  /** The name of the child a key below the directory belongs to. */
  function NameOf(k: string, dir: string): string {
    if Below(k, dir) then EntryOf(k[|dir|..]).name else ""
  }

  ghost function NamesOf(ks: seq<string>, dir: string): seq<string> {
    seq(|ks|, i requires 0 <= i < |ks| => NameOf(ks[i], dir))
  }

  ghost predicate Ascending(ks: seq<string>) {
    forall i, j :: 0 <= i < j < |ks| ==> Leq(ks[i], ks[j]) && ks[i] != ks[j]
  }

  /** The keys below the directory that a cursor has passed, in order. */
  ghost predicate Passed(ks: seq<string>, keys: set<string>, dir: string, cursor: Option<string>) {
    Ascending(ks) && forall k :: k in ks <==> k in keys && Below(k, dir) && k !in Ahead(keys, cursor)
  }

  /** The listing names the children in the order of the keys, each time the name changes. */
  ghost predicate InOrder(keys: set<string>, dir: string, listing: seq<DirEntry>) {
    exists ks :: Passed(ks, keys, dir, None) && Names(listing) == Compress(NamesOf(ks, dir))
  }

  /** The names so far, and the one that was added last. */
  ghost predicate Follows(ks: seq<string>, dir: string, listing: seq<DirEntry>, last: string) {
    Names(listing) == Compress(NamesOf(ks, dir)) && last == Last(NamesOf(ks, dir))
  }

  function PassedKey(ks: seq<string>, k: string, dir: string): seq<string> {
    if Below(k, dir) then ks + [k] else ks
  }

  lemma PassesKey(ks: seq<string>, keys: set<string>, dir: string, k: string, next: Option<string>)
    requires Passed(ks, keys, dir, Some(k)) && k in keys && FirstAfter(keys, k, next)
    ensures Passed(PassedKey(ks, k, dir), keys, dir, next)
  {
    Advance(keys, k, next);
    forall i | 0 <= i < |ks| ensures Leq(ks[i], k) && ks[i] != k {
      assert ks[i] in ks;
      Total(ks[i], k);
      Reflexive(k);
    }
  }

  lemma NamesOfSnoc(ks: seq<string>, k: string, dir: string)
    ensures NamesOf(ks + [k], dir) == NamesOf(ks, dir) + [NameOf(k, dir)]
  {
    hide NameOf;
  }

  lemma NamesSnoc(listing: seq<DirEntry>, e: DirEntry)
    ensures Names(listing + [e]) == Names(listing) + [e.name]
  {
  }

  lemma FollowsKey(ks: seq<string>, dir: string, listing: seq<DirEntry>, last: string, k: string)
    requires Follows(ks, dir, listing, last)
    ensures var (l, n) := Noted(listing, last, k, dir); Follows(PassedKey(ks, k, dir), dir, l, n)
  {
    hide NamesOf, Names, EntryOf, Compress;
    if Below(k, dir) {
      NamesOfSnoc(ks, k, dir);
      CompressSnoc(NamesOf(ks, dir), NameOf(k, dir));
      NamesSnoc(listing, EntryOf(k[|dir|..]));
    }
  }

  lemma NoKeyPassed(keys: set<string>, dir: string, cursor: Option<string>)
    requires FirstFrom(keys, dir, cursor)
    ensures Passed([], keys, dir, cursor) && Follows([], dir, [], "")
  {
    FromPrefix(keys, dir, cursor);
    assert NamesOf([], dir) == [] && Names([]) == [];
  }

  lemma AllKeysPassed(ks: seq<string>, keys: set<string>, dir: string, cursor: Option<string>,
                      listing: seq<DirEntry>, last: string)
    requires Passed(ks, keys, dir, cursor) && forall k :: k in Ahead(keys, cursor) ==> !(dir <= k)
    requires Follows(ks, dir, listing, last)
    ensures InOrder(keys, dir, listing)
  {
    hide NamesOf, Names, Compress, Last, Ascending;
    assert Passed(ks, keys, dir, None);
  }

  // ----- Well-formed databases -----

  ghost predicate NoDoubleSlash(k: string) {
    forall i, j :: 0 <= i && j == i + 1 && j < |k| && k[i] == '/' ==> k[j] != '/'
  }

  ghost predicate Shaped(k: string) {
    k != [] && k[0] == '/' && NoDoubleSlash(k) && '/' !in k[Find(k, ':')..]
  }

  ghost predicate AllShaped(keys: set<string>) {
    forall k :: k in keys ==> Shaped(k)
  }

  /** The owner of every attribute exists. */
  ghost predicate OwnersExist(keys: set<string>) {
    forall k :: k in keys ==> Owner(k) in keys
  }

  /** Every directory on the way to a key exists. */
  ghost predicate DirsExist(keys: set<string>) {
    forall k, i :: k in keys && 0 <= i < |k| && k[i] == '/' ==> k[..i + 1] in keys
  }

  /** No path is both a file and a directory. */
  ghost predicate NoneBoth(keys: set<string>) {
    forall k :: k in keys && ':' !in k && !EndsInSlash(k) ==> k + "/" !in keys
  }

  ghost predicate WellFormed(keys: set<string>) {
    "/" in keys && AllShaped(keys) && OwnersExist(keys) && DirsExist(keys) && NoneBoth(keys)
  }

  // ----- The file system -----

  class BerkeleyDbFilesystem {
    var db: Database

    constructor ()
      ensures db == map["/" := [], "/hyperspace/" := [], "/hyperspace/metadata" := []]
    {
      db := map["/" := [], "/hyperspace/" := [], "/hyperspace/metadata" := []];
    }

    method MakeDirectory(name: string) returns (r: Result<()>)
      modifies this
      ensures (db, r) == Mkdir(old(db), name)
    {
      var dirname := ParentKey(name);
      if dirname !in db {
        return Err(FileNotFound);
      }
      dirname := name;
      if !EndsInSlash(dirname) {
        dirname := dirname + "/";
      }
      if dirname in db {
        return Err(FileExists);
      }
      db := db[dirname := []];
      return Ok(());
    }

    method CreateFile(fname: string, temp: bool) returns (r: Result<()>)
      modifies this
      ensures (db, r) == Create(old(db), fname, temp)
    {
      if Exists(db, fname) {
        return Err(FileExists);
      }
      if EndsInSlash(fname) {
        return Err(IsDirectory);
      }
      var parent := ParentKey(fname);
      if parent !in db {
        return Err(BadPathname);
      }
      var data := db[parent];
      db := db[fname := data];
      if temp {
        db := db[fname + ":temp" := data];
      }
      return Ok(());
    }

    /** The key of an attribute of an existing node. */
    method BuildAttrKey(fname: string, aname: string) returns (r: Result<string>)
      ensures r == AttrKey(db, fname, aname)
    {
      if !Exists(db, fname) {
        return Err(FileNotFound);
      }
      var key := fname;
      if fname !in db {
        key := key + "/";
      }
      key := key + ":";
      key := key + aname;
      return Ok(key);
    }

    method SetXattr(fname: string, aname: string, value: Value) returns (r: Result<()>)
      modifies this
      ensures (db, r) == SetAttr(old(db), fname, aname, value)
    {
      var key := BuildAttrKey(fname, aname);
      if key.Err? {
        return Err(key.error);
      }
      db := db[key.value := value];
      return Ok(());
    }

    method DelXattr(fname: string, aname: string) returns (r: Result<()>)
      modifies this
      ensures (db, r) == DelAttr(old(db), fname, aname)
    {
      var key := BuildAttrKey(fname, aname);
      if key.Err? {
        return Err(key.error);
      }
      if key.value !in db {
        return Err(AttrNotFound);
      }
      db := db - {key.value};
      return Ok(());
    }

    /** Lists a directory with a cursor over the keys that have its key as prefix. */
    method DirectoryListing(fname: string) returns (r: Result<seq<DirEntry>>)
      ensures Misses(db.Keys, DirKey(fname)) ==> r == Err(BadPathname)
      ensures !Misses(db.Keys, DirKey(fname)) ==>
                r.Ok? && Lists(db.Keys, DirKey(fname), r.value) && InOrder(db.Keys, DirKey(fname), r.value)
    {
      hide Passed, Follows, Noted, Listed, Genuine, InOrder, Ahead, PassedKey, Leq, FirstFrom, FirstAfter;
      var dir := DirKey(fname);
      var cursor := Seek(db.Keys, dir);
      if cursor.Some? && !(dir <= cursor.value) {
        return Err(BadPathname);
      }
      var listing: seq<DirEntry>, last := [], "";
      ghost var ks: seq<string> := [];
      FromPrefix(db.Keys, dir, cursor);
      NoKeyPassed(db.Keys, dir, cursor);
      while cursor.Some? && dir <= cursor.value
        invariant cursor.Some? ==> cursor.value in db && Leq(dir, cursor.value)
        invariant forall k :: k in db.Keys && dir <= k && k !in Ahead(db.Keys, cursor) ==> Listed(listing, k, dir)
        invariant forall i :: 0 <= i < |listing| ==> Genuine(db.Keys, listing[i], dir)
        invariant Remembers(listing, last)
        invariant Passed(ks, db.Keys, dir, cursor) && Follows(ks, dir, listing, last)
        decreases |Ahead(db.Keys, cursor)|
      {
        ghost var before := listing;
        var k := cursor.value;
        NotedKeeps(db.Keys, listing, last, k, dir);
        FollowsKey(ks, dir, listing, last, k);
        var noted := Noted(listing, last, k, dir);
        listing, last := noted.0, noted.1;
        cursor := Next(db.Keys, k);
        Advance(db.Keys, k, cursor);
        MovedOn(dir, k, cursor);
        PassesKey(ks, db.Keys, dir, k, cursor);
        ks := PassedKey(ks, k, dir);
        forall j | j in db.Keys && dir <= j && j !in Ahead(db.Keys, cursor) ensures Listed(listing, j, dir) {
          if j != k {
            StaysListed(before, listing, j, dir);
          }
        }
      }
      PrefixPassed(db.Keys, dir, cursor);
      AllKeysPassed(ks, db.Keys, dir, cursor, listing, last);
      r := Ok(listing);
    }

    /** Removes a node and its attributes. */
    method UnlinkNode(name: string) returns (r: Result<()>)
      modifies this
      ensures (db, r) == Unlink(old(db), name)
    {
      ghost var first := First(db.Keys, name);
      var scan := ScanFor(name);
      if scan.blocked {
        r := Err(DirNotEmpty);
      } else if scan.dir && scan.file {
        r := Err(FailedExpectation);
      } else if scan.keys == [] {
        assert Doomed(db.Keys, name, first) == {};
        r := Err(FileNotFound);
      } else {
        assert scan.keys[0] in Doomed(db.Keys, name, first);
        r := DeleteKeys(scan.keys, Doomed(db.Keys, name, first));
      }
    }

    /** Walks over the keys with the name as prefix, the first key in any case, until one is below a directory. */
    method ScanFor(name: string) returns (scan: Scan)
      ensures scan.blocked <==> exists k :: k in Scanned(db.Keys, name, First(db.Keys, name)) && Blocks(k, name)
      ensures !scan.blocked ==> Collected(scan, Scanned(db.Keys, name, First(db.Keys, name)), name)
    {
      hide Collected, Ahead, FirstFrom, FirstAfter, Leq, Blocks, First;
      var cursor := Seek(db.Keys, name);
      ghost var first := cursor;
      ghost var scanned := Scanned(db.Keys, name, first);
      scan := Scan([], false, false, false);
      NothingPassed(db.Keys, name, first);
      StartsAt(db.Keys, name, first);
      CollectedNothing(name);
      var more := cursor.Some?;
      while more
        invariant cursor.Some? ==> cursor.value in db && Leq(name, cursor.value)
        invariant more == (cursor.Some? && (cursor == first || name <= cursor.value))
        invariant cursor != first ==> first.Some? && first.value !in Ahead(db.Keys, cursor)
        invariant !scan.blocked && Collected(scan, scanned - Ahead(db.Keys, cursor), name)
        decreases |Ahead(db.Keys, cursor)|
      {
        var k := cursor.value;
        if Blocks(k, name) {
          scan := scan.(blocked := true);
          return;
        }
        ghost var passed := scanned - Ahead(db.Keys, cursor);
        cursor := Next(db.Keys, k);
        PassedOne(db.Keys, name, first, k, cursor);
        Collects(scan, passed, k, name);
        scan := Collect(scan, k, name);
        more := cursor.Some? && name <= cursor.value;
      }
      AllPassed(db.Keys, name, first, cursor);
      NoneBlocks(scan, scanned, name);
    }

    /** Deletes the collected keys one by one; a key that is missing is an error. */
    method DeleteKeys(keys: seq<string>, ghost doomed: set<string>) returns (r: Result<()>)
      requires Distinct(keys) && doomed <= db.Keys && forall k :: k in doomed <==> k in keys
      modifies this
      ensures r == Ok(()) && db == old(db) - doomed
    {
      ghost var gone: set<string> := {};
      for i := 0 to |keys|
        invariant gone == (set k | k in keys[..i]) && db == old(db) - gone
      {
        assert keys[i] !in keys[..i];
        if keys[i] !in db {
          return Err(FailedExpectation);
        }
        db := db - {keys[i]};
        gone := gone + {keys[i]};
      }
      assert gone == doomed;
      return Ok(());
    }
  }
}
