/** Runs from the initial namespace in which an operation does what it is not meant to. */
module NamespaceExamples {
  import opened Sequences
  import opened Lexicographic
  import opened AdjacentDuplicates
  import opened Namespace
  import opened NamespaceLaws
  import opened NamespaceUpdates
  import opened NamespaceRemoval
  import opened NamespaceOrder

  const Initial: Database := map["/" := [], "/hyperspace/" := [], "/hyperspace/metadata" := []]

  lemma InitialKeys()
    ensures Initial.Keys == {"/", "/hyperspace/", "/hyperspace/metadata"} && WellFormed(Initial.Keys)
  {
    hide WellFormed;
    InitialWellFormed();
  }

  /** A file in the root, with a one-letter or two-letter name. */
  lemma CreatedInRoot(db: Database, n: string)
    requires WellFormed(db.Keys) && Component(n) && |n| <= 2
    requires "/" + n !in db && "/" + n + "/" !in db
    ensures ValidName("/" + n) && Create(db, "/" + n, false).1.Ok?
    ensures var made := Create(db, "/" + n, false).0;
            WellFormed(made.Keys) && made.Keys == db.Keys + {"/" + n}
  {
    hide WellFormed;
    RootThere(db.Keys);
    ParentIs("/", n);
    CreateKeeps(db, "/" + n, false);
  }

  lemma RootThere(keys: set<string>)
    requires WellFormed(keys)
    ensures "/" in keys
  {
  }

  lemma AttributeSet(db: Database, fname: string, value: Value)
    requires WellFormed(db.Keys) && ValidName(fname) && fname in db
    ensures var made := SetAttr(db, fname, "x", value).0;
            WellFormed(made.Keys) && made.Keys == db.Keys + {fname + ":" + "x"}
  {
    hide WellFormed;
    SetAttrKeeps(db, fname, "x", value);
  }

  // ----- mkdir of a file -----

  /** The file `/f` is created, and then a directory of the same name. */
  lemma MkdirOverFile()
    ensures var db := ApplyAll(Initial, [Creating("/f", false)]);
            WellFormed(db.Keys) && Mkdir(db, "/f").1.Ok? && !WellFormed(Mkdir(db, "/f").0.Keys)
  {
    hide WellFormed;
    InitialKeys();
    assert "/" + "f" == "/f" && "/f" + "/" == "/f/";
    CreatedInRoot(Initial, "f");
    var db := Create(Initial, "/f", false).0;
    OneOp(Initial, Creating("/f", false));
    ParentIs("/", "f");
    MkdirKeepsExactly(db, "/f");
  }

  lemma OneOp(db: Database, op: Op)
    ensures ApplyAll(db, [op]) == Apply(db, op)
  {
    assert [op][1..] == [];
    assert ApplyAll(Apply(db, op), []) == Apply(db, op);
  }

  // ----- unlink of a missing name -----

  /** The namespace with a file `/b` that has an attribute. */
  lemma FileWithAttribute(db: Database)
    requires db == ApplyAll(Initial, [Creating("/b", false), Setting("/b", "x", [])])
    ensures WellFormed(db.Keys)
    ensures db.Keys == {"/", "/hyperspace/", "/hyperspace/metadata", "/b", "/b:x"}
  {
    hide WellFormed, Unlink;
    InitialKeys();
    assert "/" + "b" == "/b" && "/b" + "/" == "/b/" && "/b" + ":" + "x" == "/b:x";
    CreatedInRoot(Initial, "b");
    var one := Create(Initial, "/b", false).0;
    AttributeSet(one, "/b", []);
    assert Apply(Initial, Creating("/b", false)) == one;
    assert [Creating("/b", false), Setting("/b", "x", [])][1..] == [Setting("/b", "x", [])];
    OneOp(one, Setting("/b", "x", []));
    assert Apply(one, Setting("/b", "x", [])) == SetAttr(one, "/b", "x", []).0;
  }

  lemma BehindMissing()
    ensures First({"/", "/hyperspace/", "/hyperspace/metadata", "/b", "/b:x"}, "/a") == Some("/b")
  {
    var keys := {"/", "/hyperspace/", "/hyperspace/metadata", "/b", "/b:x"};
    assert "/a"[1..] == "a" && "/"[1..] == "" && "/b"[1..] == "b" && "/b:x"[1..] == "b:x";
    assert "/hyperspace/"[1] == 'h' && "/hyperspace/metadata"[1] == 'h';
    PrefixLeq("/b", "/b:x");
    Reflexive("/b");
    FirstUnique(keys, "/a", Some("/b"));
  }

  lemma AttributeNeedsFile(keys: set<string>)
    requires "/b:x" in keys
    ensures Needed(keys, "/b")
  {
    FindAt("/b:x", ':', 2);
    assert Owner("/b:x") == "/b";
  }

  /** Unlinking the missing `/a` deletes `/b` and leaves its attribute without an owner. */
  lemma UnlinkOrphansAttribute()
    ensures var db := ApplyAll(Initial, [Creating("/b", false), Setting("/b", "x", [])]);
            WellFormed(db.Keys) && !Exists(db, "/a") && !WellFormed(Unlink(db, "/a").0.Keys)
  {
    hide WellFormed, ApplyAll, First, Unlink, Needed, Owner, Find;
    var db := ApplyAll(Initial, [Creating("/b", false), Setting("/b", "x", [])]);
    FileWithAttribute(db);
    BehindMissing();
    AttributeNeedsFile(db.Keys);
    assert "/a" + "/" == "/a/";
    UnlinkKeepsExactly(db, "/a");
  }

  // ----- A missing directory that is listed -----

  /** No key of the initial namespace sorts behind `/z/`, so the missing directory is not refused. */
  lemma MissingIsListed()
    ensures !Exists(Initial, "/z") && DirKey("/z") == "/z/" && !Misses(Initial.Keys, "/z/")
    ensures forall listing :: Lists(Initial.Keys, "/z/", listing) ==> listing == []
  {
    hide WellFormed, Lists;
    InitialKeys();
    assert "/z" + "/" == "/z/";
    assert "/z/"[1..] == "z/" && "/"[1..] == "";
    assert "/hyperspace/"[1] == 'h' && "/hyperspace/metadata"[1] == 'h';
    FirstUnique(Initial.Keys, "/z/", None);
    forall listing | Lists(Initial.Keys, "/z/", listing) ensures listing == [] {
      MissingIsEmpty(Initial.Keys, "/z/", listing);
    }
  }

  // ----- A file that is listed twice -----

  /** The files `/f` and `/f1`, and an attribute of the first. */
  ghost function TwoFiles(): Database {
    SetAttr(Create(Create(Initial, "/f", false).0, "/f1", false).0, "/f", "x", []).0
  }

  lemma TwoFilesKeys()
    ensures WellFormed(TwoFiles().Keys)
    ensures TwoFiles().Keys == Initial.Keys + {"/f"} + {"/f1"} + {"/f:x"}
  {
    hide WellFormed, Create, SetAttr;
    InitialKeys();
    assert "/" + "f" == "/f" && "/f" + "/" == "/f/" && "/" + "f1" == "/f1" && "/f1" + "/" == "/f1/";
    CreatedInRoot(Initial, "f");
    var one := Create(Initial, "/f", false).0;
    CreatedInRoot(one, "f1");
    AttributeSet(Create(one, "/f1", false).0, "/f", []);
    assert "/f" + ":" + "x" == "/f:x";
  }

  lemma TwoFilesTorn(keys: set<string>)
    requires "/f" in keys && "/f1" in keys && "/f:x" in keys
    ensures Torn(keys, "/", "f", "/f1", "/f:x")
  {
    assert "/" + "f" == "/f" && "/" + "f" + ":" == "/f:";
  }

  /** Every listing of the root names `f` twice. */
  lemma FileListedTwice(listing: seq<DirEntry>)
    requires InOrder(TwoFiles().Keys, "/", listing)
    ensures Repeats(Names(listing))
  {
    hide WellFormed, InOrder, Repeats, Names, Torn, TwoFiles;
    TwoFilesKeys();
    TwoFilesTorn(TwoFiles().Keys);
    RootThere(TwoFiles().Keys);
    TwiceExactly(TwoFiles().Keys, "/", listing);
  }
}
