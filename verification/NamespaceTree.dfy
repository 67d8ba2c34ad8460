/**
 * The operations as the tree sees them: a successful mkdir or create adds one
 * child to one directory, a successful unlink takes one away, and attributes
 * change no children.
 */
module NamespaceTree {
  import opened Namespace
  import opened NamespaceLaws
  import opened NamespaceUpdates
  import opened NamespaceRemoval

  /** The key a child is kept under. */
  function ChildKey(dir: string, e: DirEntry): string {
    if e.isDir then dir + e.name + "/" else dir + e.name
  }

  /** The last component of a path. */
  function LastName(name: string): string {
    name[BehindLastSlash(name)..]
  }

  lemma ChildKeyDecides(dir: string, e: DirEntry, name: string, isDir: bool)
    requires EndsInSlash(dir) && Component(e.name) && ValidName(name)
    ensures ChildKey(dir, e) == (if isDir then name + "/" else name) <==>
            dir == ParentKey(name) && e == DirEntry(LastName(name), isDir)
  {
    hide BehindLastSlash;
    Splits(name);
    var path := dir + e.name;
    ParentIs(dir, e.name);
    var k := ChildKey(dir, e);
    if k == (if isDir then name + "/" else name) {
      assert e.name[|e.name| - 1] == path[|path| - 1];
      assert isDir ==> k[|k| - 1] == '/';
      assert !isDir ==> k[|k| - 1] == name[|name| - 1];
      assert e.isDir == isDir;
      assert isDir ==> k[..|k| - 1] == path && (name + "/")[..|name|] == name;
      assert path == name;
      assert path[|dir|..] == e.name;
    }
  }

  /** The key of a child belongs to nobody else. */
  lemma ChildKeyOwns(keys: set<string>, dir: string, e: DirEntry)
    requires WellFormed(keys) && dir in keys && EndsInSlash(dir) && Component(e.name)
    ensures ':' !in ChildKey(dir, e) && Owner(ChildKey(dir, e)) == ChildKey(dir, e)
  {
    OwnerExists(keys, dir);
    DirHasNoColon(dir);
    OwnerOfNode(ChildKey(dir, e));
  }

  /** A new directory is one more child of its parent, and changes no other directory. */
  lemma MkdirAddsChild(db: Database, name: string, dir: string, e: DirEntry)
    requires ValidName(name) && EndsInSlash(dir) && Mkdir(db, name).1.Ok?
    ensures IsChild(Mkdir(db, name).0.Keys, dir, e) <==>
            IsChild(db.Keys, dir, e) || (dir == ParentKey(name) && e == DirEntry(LastName(name), true))
  {
    Splits(name);
    if Component(e.name) {
      ChildKeyDecides(dir, e, name, true);
    }
  }

  /** A new file is one more child of its parent, and changes no other directory. */
  lemma CreateAddsChild(db: Database, name: string, temp: bool, dir: string, e: DirEntry)
    requires WellFormed(db.Keys) && ValidName(name) && dir in db && EndsInSlash(dir) && Create(db, name, temp).1.Ok?
    ensures IsChild(Create(db, name, temp).0.Keys, dir, e) <==>
            IsChild(db.Keys, dir, e) || (dir == ParentKey(name) && e == DirEntry(LastName(name), false))
  {
    hide WellFormed, Owner, BehindLastSlash;
    Splits(name);
    if Component(e.name) {
      ChildKeyDecides(dir, e, name, false);
      ChildKeyOwns(db.Keys, dir, e);
      assert (name + ":temp")[|name|] == ':';
    }
  }

  /** A removed node is one child less of its parent, and changes no other directory. */
  lemma UnlinkRemovesChild(db: Database, name: string, dir: string, e: DirEntry)
    requires WellFormed(db.Keys) && ValidName(name) && Exists(db, name) && Unlink(db, name).1.Ok?
    requires dir in db && EndsInSlash(dir)
    ensures IsChild(Unlink(db, name).0.Keys, dir, e) <==>
            IsChild(db.Keys, dir, e) && !(dir == ParentKey(name) && e.name == LastName(name))
  {
    hide WellFormed, Owner, BehindLastSlash, Unlink;
    var isDir := name !in db;
    var n := if isDir then name + "/" else name;
    if isDir {
      UnlinkDirectory(db, name);
    } else {
      UnlinkFile(db, name);
    }
    assert Unlink(db, name).0.Keys == db.Keys - OwnedBy(db.Keys, n);
    if IsChild(db.Keys, dir, e) {
      ChildKeyDecides(dir, e, name, isDir);
      ChildKeyOwns(db.Keys, dir, e);
      if dir == ParentKey(name) && e.name == LastName(name) {
        ChildKeyDecides(dir, DirEntry(e.name, isDir), name, isDir);
        OneKind(db.Keys, dir, e, DirEntry(e.name, isDir));
      }
    }
  }

  /** Setting or deleting an attribute changes no children. */
  lemma AttributesKeepChildren(db: Database, fname: string, aname: string, value: Value, dir: string, e: DirEntry)
    requires WellFormed(db.Keys) && ValidNode(fname) && dir in db && EndsInSlash(dir)
    ensures IsChild(SetAttr(db, fname, aname, value).0.Keys, dir, e) <==> IsChild(db.Keys, dir, e)
    ensures IsChild(DelAttr(db, fname, aname).0.Keys, dir, e) <==> IsChild(db.Keys, dir, e)
  {
    hide WellFormed, Owner;
    if Component(e.name) {
      ChildKeyOwns(db.Keys, dir, e);
      if Exists(db, fname) {
        AttrKeyIs(db, fname, aname);
        assert (NodeKey(db, fname) + ":" + aname)[|NodeKey(db, fname)|] == ':';
      }
    }
  }

  /** Nothing belongs to a node that does not exist. */
  lemma NobodyOwned(keys: set<string>, n: string)
    requires WellFormed(keys) && n !in keys
    ensures OwnedBy(keys, n) == {}
  {
    hide Owner, Shaped;
  }

  lemma OwnerOfMark(name: string)
    requires ValidName(name)
    ensures Owner(name + ":temp") == name
  {
    FindAt(name + ":temp", ':', |name|);
    assert (name + ":temp")[..|name|] == name;
  }

  /** What create made, unlink undoes. */
  lemma UnlinkUndoesCreate(db: Database, name: string, temp: bool)
    requires WellFormed(db.Keys) && ValidName(name) && Create(db, name, temp).1.Ok?
    ensures Unlink(Create(db, name, temp).0, name) == (db, Ok(()))
  {
    hide WellFormed, Unlink, ParentKey, Owner;
    var made := Create(db, name, temp).0;
    CreateKeeps(db, name, temp);
    UnlinkFile(made, name);
    NobodyOwned(db.Keys, name);
    OwnerOfNode(name);
    OwnerOfMark(name);
    assert forall j :: j in db.Keys ==> j !in OwnedBy(db.Keys, name);
    assert made - OwnedBy(made.Keys, name) == db;
  }

  /** What mkdir made, unlink undoes. */
  lemma UnlinkUndoesMkdir(db: Database, name: string)
    requires WellFormed(db.Keys) && ValidName(name) && name !in db && Mkdir(db, name).1.Ok?
    ensures Unlink(Mkdir(db, name).0, name) == (db, Ok(()))
  {
    hide WellFormed, Unlink, ParentKey, Owner, IsChild;
    var made, dir := Mkdir(db, name).0, name + "/";
    MkdirKeepsExactly(db, name);
    UnlinkDirectory(made, name);
    NobodyOwned(db.Keys, dir);
    assert ':' !in dir;
    OwnerOfNode(dir);
    assert forall j :: j in db.Keys ==> j !in OwnedBy(db.Keys, dir);
    assert made - OwnedBy(made.Keys, dir) == db;
    if e :| IsChild(made.Keys, dir, e) {
      NewDirIsEmpty(db, name, e);
    }
  }

  /** A directory that was just made has no children. */
  lemma NewDirIsEmpty(db: Database, name: string, e: DirEntry)
    requires WellFormed(db.Keys) && ValidName(name) && Mkdir(db, name).1.Ok?
    ensures !IsChild(Mkdir(db, name).0.Keys, name + "/", e)
  {
    hide WellFormed;
    var dir := name + "/";
    if Component(e.name) {
      var k := ChildKey(dir, e);
      assert k != dir by { assert |k| > |dir|; }
      if k in db {
        assert k[|name|] == '/';
        SlashShowsDir(db.Keys, name, k);
      }
    }
  }
}
