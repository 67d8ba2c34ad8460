/**
 * Removing a node: for an existing name the scan takes exactly the node and
 * its attributes or finds a child; for a missing name it is right exactly when
 * the key that happens to follow the name does not look like a match.
 */
module NamespaceRemoval {
  import opened Sequences
  import opened Lexicographic
  import opened Namespace
  import opened NamespaceLaws
  import opened NamespaceUpdates

  // ----- The keys behind a name -----

  /** The first key behind a name has the name as prefix if any key has. */
  lemma FirstHasPrefix(keys: set<string>, name: string, k: string)
    requires k in keys && name <= k
    ensures First(keys, name).Some? && name <= First(keys, name).value
    ensures Scanned(keys, name, First(keys, name)) == set j | j in keys && name <= j
  {
    var first := First(keys, name);
    PrefixLeq(name, k);
    PrefixesTogether(name, first.value, k);
  }

  /** A key that goes on with a slash shows a directory. */
  lemma SlashShowsDir(keys: set<string>, name: string, k: string)
    requires WellFormed(keys) && k in keys && name <= k && |k| > |name| && k[|name|] == '/'
    ensures name + "/" in keys
  {
    Ancestor(keys, k, |name|);
    assert k[..|name| + 1] == name + "/";
  }

  /** A key that goes on with a colon, or ends, shows a file. */
  lemma ColonShowsFile(keys: set<string>, name: string, k: string)
    requires WellFormed(keys) && ValidName(name) && k in keys && name <= k && (|k| > |name| ==> k[|name|] == ':')
    ensures name in keys
  {
    OwnerExists(keys, k);
    OwnedExactly(k, name);
  }

  // ----- Files -----

  lemma FileKeys(keys: set<string>, name: string, k: string)
    requires WellFormed(keys) && ValidName(name) && name in keys && k in keys && name <= k
    ensures !Blocks(k, name) && !LooksLikeDir(k, name) && (LooksLikeFile(k, name) <==> Owner(k) == name)
  {
    hide WellFormed;
    OwnedExactly(k, name);
    if |k| > |name| && k[|name|] == '/' {
      SlashShowsDir(keys, name, k);
      BothIsIllFormed(keys, name);
    }
  }

  lemma OwnedHasPrefix(k: string, n: string)
    requires Owner(k) == n
    ensures n <= k
  {
  }

  /** Removing a file takes its key and its attribute keys, and nothing else. */
  lemma UnlinkFile(db: Database, name: string)
    requires WellFormed(db.Keys) && ValidName(name) && name in db
    ensures Unlink(db, name) == (db - OwnedBy(db.Keys, name), Ok(()))
  {
    hide WellFormed, First, Owner, Blocks, LooksLikeDir, LooksLikeFile;
    FirstHasPrefix(db.Keys, name, name);
    forall k | k in db.Keys && name <= k
      ensures !Blocks(k, name) && !LooksLikeDir(k, name) && (LooksLikeFile(k, name) <==> Owner(k) == name)
    {
      FileKeys(db.Keys, name, k);
    }
    forall k | k in db.Keys && Owner(k) == name ensures name <= k {
      OwnedHasPrefix(k, name);
    }
    assert Doomed(db.Keys, name, First(db.Keys, name)) == OwnedBy(db.Keys, name);
    OwnerOfNode(name);
    assert name in OwnedBy(db.Keys, name);
  }

  // ----- Directories -----

  lemma DirKeys(keys: set<string>, name: string, k: string)
    requires WellFormed(keys) && ValidName(name) && name + "/" in keys && k in keys && name <= k
    ensures !LooksLikeFile(k, name)
    ensures Blocks(k, name) <==> Below(k, name + "/")
    ensures LooksLikeDir(k, name) <==> Owner(k) == name + "/"
  {
    hide WellFormed;
    if name in keys {
      BothIsIllFormed(keys, name);
    }
    if LooksLikeFile(k, name) {
      ColonShowsFile(keys, name, k);
    }
    OwnedExactly(k, name + "/");
    if |k| > |name| && k[|name|] == '/' {
      assert k[..|name| + 1] == name + "/";
    }
  }

  /**
   * Removing a directory takes its key and its attribute keys and nothing else
   * when it has no child, and is refused without a change when it has one.
   */
  lemma UnlinkDirectory(db: Database, name: string)
    requires WellFormed(db.Keys) && ValidName(name) && name + "/" in db
    ensures Unlink(db, name) == if exists e :: IsChild(db.Keys, name + "/", e) then (db, Err(DirNotEmpty))
                                       else (db - OwnedBy(db.Keys, name + "/"), Ok(()))
  {
    hide WellFormed, First, Owner, Blocks, LooksLikeDir, LooksLikeFile, IsChild, Below;
    var dir := name + "/";
    FirstHasPrefix(db.Keys, name, dir);
    forall k | k in db.Keys && name <= k
      ensures !LooksLikeFile(k, name) && (Blocks(k, name) <==> Below(k, dir))
      ensures (LooksLikeDir(k, name) <==> Owner(k) == dir)
    {
      DirKeys(db.Keys, name, k);
    }
    forall k | k in db.Keys && Owner(k) == dir ensures name <= k {
      OwnedHasPrefix(k, dir);
    }
    assert Doomed(db.Keys, name, First(db.Keys, name)) == OwnedBy(db.Keys, dir);
    assert ':' !in dir;
    OwnerOfNode(dir);
    assert dir in OwnedBy(db.Keys, dir);
    ChildExactly(db.Keys, name);
  }

  /** A key below a directory exists exactly when the directory has a child. */
  lemma ChildExactly(keys: set<string>, name: string)
    requires WellFormed(keys) && name + "/" in keys
    ensures (exists e :: IsChild(keys, name + "/", e)) <==> (exists k :: k in keys && name <= k && Below(k, name + "/"))
  {
    hide WellFormed, IsChild;
    var dir := name + "/";
    if k :| k in keys && name <= k && Below(k, dir) {
      GenuineIsChild(keys, dir, EntryOf(k[|dir|..]));
    }
    if e :| IsChild(keys, dir, e) {
      var k := ChildIsBelow(keys, dir, e);
      assert name <= k;
    }
  }

  // ----- Missing names -----

  /** The key behind a missing name is passed over. */
  predicate PassedOver(first: Option<string>, name: string) {
    first.None? || name <= first.value ||
    (|first.value| > |name| && first.value[|name|] != '/' && first.value[|name|] != ':')
  }

  lemma MissingKeys(keys: set<string>, name: string, k: string)
    requires WellFormed(keys) && ValidName(name) && name !in keys && name + "/" !in keys && k in keys && name <= k
    ensures |k| > |name| && k[|name|] != '/' && k[|name|] != ':'
  {
    hide WellFormed;
    if |k| > |name| && k[|name|] == '/' {
      SlashShowsDir(keys, name, k);
    } else if |k| == |name| || k[|name|] == ':' {
      ColonShowsFile(keys, name, k);
    }
  }

  /**
   * A missing name is reported as missing exactly when the key behind it is
   * passed over.  Otherwise that key, which belongs to another node, is taken
   * for a child of the name, or is itself deleted.
   */
  lemma UnlinkMissingExactly(db: Database, name: string)
    requires WellFormed(db.Keys) && ValidName(name) && !Exists(db, name)
    ensures Unlink(db, name) == (db, Err(FileNotFound)) <==> PassedOver(First(db.Keys, name), name)
    ensures var first := First(db.Keys, name);
            !PassedOver(first, name) ==>
              first.value in db &&
              Unlink(db, name) ==
              if Blocks(first.value, name) then (db, Err(DirNotEmpty)) else (db - {first.value}, Ok(()))
  {
    hide WellFormed, Leq;
    var first := First(db.Keys, name);
    forall k | k in db.Keys && name <= k ensures |k| > |name| && k[|name|] != '/' && k[|name|] != ':' {
      MissingKeys(db.Keys, name, k);
    }
    if PassedOver(first, name) {
      assert Doomed(db.Keys, name, first) == {};
    } else if !Blocks(first.value, name) {
      assert Doomed(db.Keys, name, first) == {first.value};
    } else {
      assert first.value in Scanned(db.Keys, name, first);
    }
  }

  lemma RootAlone()
    ensures WellFormed({"/"})
  {
    OwnerOfNode("/");
    assert "/"[..1] == "/";
    NotFound("/", ':');
  }

  lemma BehindA()
    ensures First({"/", "/b"}, "/a") == Some("/b")
  {
    assert "/a"[1..] == "a" && "/"[1..] == "" && "/b"[1..] == "b";
    Reflexive("/b");
    FirstUnique({"/", "/b"}, "/a", Some("/b"));
  }

  /** Removing the missing file `/a` removes the file `/b`. */
  lemma UnlinkMissingDeletesOther()
    ensures var db: Database := map["/" := [], "/b" := []];
            WellFormed(db.Keys) && !Exists(db, "/a") && Unlink(db, "/a") == (map["/" := []], Ok(()))
  {
    hide WellFormed, First, Leq, Unlink;
    var db: Database := map["/" := [], "/b" := []];
    RootAlone();
    var root: Database := map["/" := []];
    assert root.Keys == {"/"} && db.Keys == {"/", "/b"};
    assert ParentKey("/b") == "/";
    assert "/b" + "/" !in root by { assert |"/b" + "/"| == 3; }
    CreateKeeps(root, "/b", false);
    assert Create(root, "/b", false).0 == db;
    BehindA();
    assert "/a" + "/" !in db by { assert |"/a" + "/"| == 3; }
    UnlinkMissingExactly(db, "/a");
    assert db - {"/b"} == root;
  }

  // ----- Removal keeps the namespace well formed -----

  lemma FileUnneeded(keys: set<string>, name: string)
    requires WellFormed(keys) && ValidName(name)
    ensures Unneeded(keys, OwnedBy(keys, name))
  {
    hide WellFormed, Find;
    OwnerOfNode("/");
    forall k | k in keys && k !in OwnedBy(keys, name) ensures Owner(k) !in OwnedBy(keys, name) {
      OwnerHasNoColon(k);
      OwnerOfNode(Owner(k));
    }
    forall k, i | k in keys && 0 <= i < |k| && k[i] == '/' ensures k[..i + 1] !in OwnedBy(keys, name) {
      Ancestor(keys, k, i);
      OwnerExists(keys, k[..i + 1]);
      DirHasNoColon(k[..i + 1]);
      OwnerOfNode(k[..i + 1]);
    }
  }

  lemma DirUnneeded(keys: set<string>, name: string)
    requires WellFormed(keys) && ValidName(name) && !exists e :: IsChild(keys, name + "/", e)
    requires name + "/" in keys
    ensures Unneeded(keys, OwnedBy(keys, name + "/"))
  {
    hide WellFormed, Find, IsChild;
    var dir := name + "/";
    OwnerOfNode("/");
    ChildExactly(keys, name);
    assert ':' !in dir;
    forall k | k in keys && k !in OwnedBy(keys, dir) ensures Owner(k) !in OwnedBy(keys, dir) {
      OwnerHasNoColon(k);
      OwnerOfNode(Owner(k));
    }
    forall k, i | k in keys && k !in OwnedBy(keys, dir) && 0 <= i < |k| && k[i] == '/'
      ensures k[..i + 1] !in OwnedBy(keys, dir)
    {
      OwnedExactly(k, dir);
      Ancestor(keys, k, i);
      OwnerExists(keys, k[..i + 1]);
      DirHasNoColon(k[..i + 1]);
      OwnerOfNode(k[..i + 1]);
    }
  }

  /** Removing an existing name keeps the namespace well formed. */
  lemma UnlinkKeeps(db: Database, name: string)
    requires WellFormed(db.Keys) && ValidName(name) && Exists(db, name)
    ensures WellFormed(Unlink(db, name).0.Keys)
  {
    hide WellFormed, Unlink, Unneeded, OwnedBy, IsChild;
    if name in db {
      UnlinkFile(db, name);
      FileUnneeded(db.Keys, name);
      RemoveKeys(db.Keys, OwnedBy(db.Keys, name));
      assert (db - OwnedBy(db.Keys, name)).Keys == db.Keys - OwnedBy(db.Keys, name);
    } else {
      var dir := name + "/";
      UnlinkDirectory(db, name);
      if !exists e :: IsChild(db.Keys, dir, e) {
        DirUnneeded(db.Keys, name);
        RemoveKeys(db.Keys, OwnedBy(db.Keys, dir));
        assert (db - OwnedBy(db.Keys, dir)).Keys == db.Keys - OwnedBy(db.Keys, dir);
      }
    }
  }

  /** Another key has the key as its owner, or lies below it. */
  ghost predicate Needed(keys: set<string>, k: string) {
    exists j :: j in keys && j != k && (Owner(j) == k || (EndsInSlash(k) && k <= j))
  }

  /** A single key can go exactly when no other needs it. */
  lemma RemoveOneExactly(keys: set<string>, k: string)
    requires WellFormed(keys) && k in keys && k != "/"
    ensures WellFormed(keys - {k}) <==> !Needed(keys, k)
  {
    hide WellFormed, Shaped, Owner;
    if WellFormed(keys - {k}) {
      forall j | j in keys && j != k ensures Owner(j) != k && !(EndsInSlash(k) && k <= j) {
        OwnerExists(keys - {k}, j);
        if EndsInSlash(k) && k <= j {
          assert j[..|k|] == k && j[|k| - 1] == '/';
          Ancestor(keys - {k}, j, |k| - 1);
        }
      }
    } else if !Needed(keys, k) {
      forall j, i | j in keys && j != k && 0 <= i < |j| && j[i] == '/' ensures j[..i + 1] != k {
        assert j[..i + 1][i] == '/';
      }
      RemoveKeys(keys, {k});
    }
  }

  /** The key behind a missing name is left alone, or no other key needs it. */
  ghost predicate NoHarm(keys: set<string>, name: string) {
    var first := First(keys, name);
    PassedOver(first, name) || Blocks(first.value, name) || !Needed(keys, first.value)
  }

  lemma RootIsBefore(name: string)
    requires ValidName(name)
    ensures !Leq(name, "/")
  {
    assert "/"[1..] == "" && name[1..] != "";
  }

  /**
   * Unlink keeps the namespace well formed exactly when the name exists, or the
   * key behind it is left alone, or no other key needs that key.
   */
  lemma UnlinkKeepsExactly(db: Database, name: string)
    requires WellFormed(db.Keys) && ValidName(name)
    ensures WellFormed(Unlink(db, name).0.Keys) <==> Exists(db, name) || NoHarm(db.Keys, name)
  {
    hide WellFormed, Unlink, Blocks, Needed, Leq;
    if Exists(db, name) {
      UnlinkKeeps(db, name);
    } else {
      UnlinkMissingExactly(db, name);
      var first := First(db.Keys, name);
      if !PassedOver(first, name) && !Blocks(first.value, name) {
        RootIsBefore(name);
        RemoveOneExactly(db.Keys, first.value);
        assert (db - {first.value}).Keys == db.Keys - {first.value};
      }
    }
  }

  lemma DelAttrKeeps(db: Database, fname: string, aname: string)
    requires WellFormed(db.Keys) && ValidNode(fname) && ValidAttr(aname)
    ensures WellFormed(DelAttr(db, fname, aname).0.Keys)
  {
    hide WellFormed;
    if Exists(db, fname) {
      var key := NodeKey(db, fname) + ":" + aname;
      NodeKeyShape(db, fname);
      AttrKeyIs(db, fname, aname);
      AttrUnneeded(db.Keys, NodeKey(db, fname), aname);
      RemoveKeys(db.Keys, {key});
      assert (db - {key}).Keys == db.Keys - {key};
    }
  }

  lemma AttrUnneeded(keys: set<string>, owner: string, aname: string)
    requires Shaped(owner) && ':' !in owner && ValidAttr(aname)
    ensures Unneeded(keys, {owner + ":" + aname})
  {
    hide Find, Shaped;
    var key := owner + ":" + aname;
    assert key[|owner|] == ':';
    AttrShaped(owner, aname);
    forall k | k in keys ensures Owner(k) != key {
      OwnerHasNoColon(k);
    }
    assert "/" != key by { assert ':' !in "/"; }
  }

  // ----- Whole runs -----

  datatype Op =
    | Making(name: string)
    | Creating(name: string, temp: bool)
    | Unlinking(name: string)
    | Setting(name: string, aname: string, value: Value)
    | Deleting(name: string, aname: string)

  ghost function Apply(db: Database, op: Op): Database {
    match op
    case Making(name) => Mkdir(db, name).0
    case Creating(name, temp) => Create(db, name, temp).0
    case Unlinking(name) => Unlink(db, name).0
    case Setting(name, aname, value) => SetAttr(db, name, aname, value).0
    case Deleting(name, aname) => DelAttr(db, name, aname).0
  }

  /** The names are as callers give them. */
  predicate Named(op: Op) {
    match op
    case Making(name) => ValidName(name)
    case Creating(name, temp) => ValidName(name)
    case Unlinking(name) => ValidName(name)
    case Setting(name, aname, value) => ValidNode(name) && ValidAttr(aname)
    case Deleting(name, aname) => ValidNode(name) && ValidAttr(aname)
  }

  /** A mkdir that succeeds is not for the name of a file, and an unlink of a missing name does no harm. */
  ghost predicate Proper(db: Database, op: Op) {
    match op
    case Making(name) => Mkdir(db, name).1.Ok? ==> name !in db
    case Unlinking(name) => Exists(db, name) || NoHarm(db.Keys, name)
    case _ => true
  }

  ghost function ApplyAll(db: Database, ops: seq<Op>): Database
    decreases |ops|
  {
    if ops == [] then db else ApplyAll(Apply(db, ops[0]), ops[1..])
  }

  ghost predicate AllProper(db: Database, ops: seq<Op>)
    decreases |ops|
  {
    ops == [] || (Proper(db, ops[0]) && AllProper(Apply(db, ops[0]), ops[1..]))
  }

  ghost predicate WellFormedThroughout(db: Database, ops: seq<Op>)
    decreases |ops|
  {
    WellFormed(db.Keys) && (ops == [] || WellFormedThroughout(Apply(db, ops[0]), ops[1..]))
  }

  lemma StepKeepsExactly(db: Database, op: Op)
    requires WellFormed(db.Keys) && Named(op)
    ensures WellFormed(Apply(db, op).Keys) <==> Proper(db, op)
  {
    hide WellFormed, Unlink, NoHarm;
    match op {
      case Making(name) => if Mkdir(db, name).1.Ok? { MkdirKeepsExactly(db, name); }
      case Creating(name, temp) => CreateKeeps(db, name, temp);
      case Unlinking(name) => UnlinkKeepsExactly(db, name);
      case Setting(name, aname, value) => SetAttrKeeps(db, name, aname, value);
      case Deleting(name, aname) => DelAttrKeeps(db, name, aname);
    }
  }

  /** The namespace is well formed throughout a run exactly when every operation of it is proper. */
  lemma {:induction false} RunKeepsExactly(db: Database, ops: seq<Op>)
    requires WellFormed(db.Keys) && forall i :: 0 <= i < |ops| ==> Named(ops[i])
    ensures WellFormedThroughout(db, ops) <==> AllProper(db, ops)
    decreases |ops|
  {
    hide WellFormed, Apply, Proper, Named;
    if ops != [] {
      StepKeepsExactly(db, ops[0]);
      if Proper(db, ops[0]) {
        RunKeepsExactly(Apply(db, ops[0]), ops[1..]);
      }
    }
  }

  lemma ParentIs(dir: string, n: string)
    requires EndsInSlash(dir) && '/' !in n
    ensures ParentKey(dir + n) == dir
  {
    hide BehindLastSlash;
    var s := dir + n;
    assert s[|dir| - 1] == '/';
    forall i | |dir| <= i < |s| ensures s[i] != '/' {
      assert s[i] == n[i - |dir|];
    }
    assert s[..|dir|] == dir;
  }

  /** A directory below the root with one file in it. */
  lemma DirWithFile(dir: string, file: string)
    requires Component(dir) && Component(file)
    ensures WellFormed({"/", "/" + dir + "/", "/" + dir + "/" + file})
  {
    hide WellFormed, ParentKey;
    RootAlone();
    var root: Database := map["/" := []];
    assert root.Keys == {"/"};
    var name := "/" + dir;
    var key := name + "/";
    ParentIs("/", dir);
    MkdirKeepsExactly(root, name);
    var one := Mkdir(root, name).0;
    assert one.Keys == {"/", key};
    ParentIs(key, file);
    assert key + file != key;
    assert |key + file + "/"| > |key|;
    CreateKeeps(one, key + file, false);
    assert Create(one, key + file, false).0.Keys == {"/", key, key + file};
  }

  /** The namespace starts well formed. */
  lemma InitialWellFormed()
    ensures WellFormed({"/", "/hyperspace/", "/hyperspace/metadata"})
  {
    hide WellFormed;
    DirWithFile("hyperspace", "metadata");
    assert "/" + "hyperspace" + "/" == "/hyperspace/";
    assert "/hyperspace/" + "metadata" == "/hyperspace/metadata";
  }
}
