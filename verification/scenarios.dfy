/** Worked examples on a small wiki: page "Wiki/Home" (id "7") with two
    versions of notes.txt, listed oldest first, and a page "Secret/Page" that
    refuses display; then permission catalogues over the pages "B" and "A". */
module Scenarios {
  import opened Wrappers
  import opened Php
  import opened Store
  import opened Names
  import opened Downloads
  import Perms

  /** A runtime in which no file name involved here reads as a number. */
  const TextOnly: Runtime := Runtime(s => None)

  const First: Bytes := [1]
  const Second: Bytes := [2]

  const Home: Wiki := Wiki(
    page => page != "Secret/Page",
    page => if page == "Wiki/Home" then Success(Some("7")) else Success(None),
    Success(["Wiki/Home"]),
    key => if key == "7" then Success([Attachment("notes.txt", "1"), Attachment("notes.txt", "2")]) else Success([]),
    (key, file, version) =>
      if key == "7" && file == "notes.txt" && version == "1" then Success(First)
      else if key == "7" && file == "notes.txt" && version == "2" then Success(Second)
      else Failure("no such attachment"),
    (key, file) => Success(()))

  /** Sniffing recognises nothing; the file-name guess says text. */
  const Plain: Magic := Magic(data => None, file => "text/plain")

  /** Without a version the last listed record, v2, is served; asking for "1"
      serves v1. */
  lemma ExampleHomeNotes()
    ensures Download(TextOnly, Home, Plain, Request(Some("Wiki/Home"), "notes.txt", None)).outcome
         == Ok(Second, "notes.txt", "text/plain")
    ensures Download(TextOnly, Home, Plain, Request(Some("Wiki/Home"), "notes.txt", Some("1"))).outcome
         == Ok(First, "notes.txt", "text/plain")
  {
  }

  /** The version "0" is empty in PHP's sense, so it is looked up like no
      version at all. */
  lemma ExampleZeroVersionIsLookedUp()
    ensures Download(TextOnly, Home, Plain, Request(Some("Wiki/Home"), "notes.txt", Some("0"))).outcome
         == Ok(Second, "notes.txt", "text/plain")
  {
  }

  /** The records [v1, v3, v2], in that order, resolve to v2: the last match,
      not the greatest version. */
  lemma ExampleLastNotGreatest()
    ensures ScanVersions(TextOnly, [Attachment("a.txt", "1"), Attachment("a.txt", "3"), Attachment("a.txt", "2")], "a.txt", None)
         == Some("2")
  {
  }

  /** A refused page is denied after the permission check alone. */
  lemma ExampleSecretPageDenied()
    ensures Download(TextOnly, Home, Plain, Request(Some("Secret/Page"), "anything.txt", None))
         == Response(Denied, [AllowsDisplay("Secret/Page")])
  {
  }

  /** A file the page does not have is a bare 404 after the listing. */
  lemma ExampleMissingFile()
    ensures Download(TextOnly, Home, Plain, Request(None, "missing.txt", None))
         == Response(NotFound(""), [AllowsDisplay("Wiki/Home"), GetPageId("Wiki/Home"), GetAttachedFiles("7")])
  {
  }

  /** Bytes that sniff as PNG are served as PNG even under a ".txt" name. */
  lemma ExampleSniffWins()
    ensures Download(TextOnly, Home, Magic(data => Some("image/png"), file => "text/plain"),
                     Request(Some("Wiki/Home"), "notes.txt", None)).outcome
         == Ok(Second, "notes.txt", "image/png")
  {
  }

  /** A runtime that reads "1" and "1.0" as the number 1 and nothing else as
      a number. */
  const OneIsNumeric: Runtime := Runtime(s => if s == "1" || s == "1.0" then Some(1.0) else None)

  /** The file "1" loosely equals the record named "1.0", so that record's
      version is found although the names differ as strings. */
  lemma ExampleNumericNameMatches()
    ensures ScanVersions(OneIsNumeric, [Attachment("1.0", "4"), Attachment("x", "5")], "1", None) == Some("4")
  {
  }

  /** A wiki listing the pages "B" and "A", with the given page ids. */
  function Pages(getPageId: string -> Result<Option<string>, string>): Wiki {
    Home.(getPages := Success(["B", "A"]), getPageId := getPageId)
  }

  lemma SortBA()
    ensures SortNames(["B", "A"]) == ["A", "B"]
  {
    assert SortNames(["A"]) == ["A"];
    assert !Below("B", "A");
    assert Insert("B", ["A"]) == ["A"] + Insert("B", []);
  }

  /** Pages "B" and "A" with ids 2 and 1. */
  const NumberedPages: Wiki := Pages(page => if page == "A" then Success(Some("1")) else Success(Some("2")))

  lemma NumberedPagesWrites()
    ensures Perms.PageWrites(NumberedPages) == [("pages:1", "A"), ("pages:2", "B")]
  {
    var w := NumberedPages;
    assert w.getPages == Success(["B", "A"]);
    assert w.getPageId("A") == Success(Some("1")) && w.getPageId("B") == Success(Some("2"));
    assert Perms.DynamicKey(Some("1")) == "pages:1" && Perms.DynamicKey(Some("2")) == "pages:2";
    WritesAB(w);
  }

  /** Pages listed as "B", "A" with ids 2 and 1 are visited as "A", "B", and
      the catalogue gains `pages:1` and `pages:2`. */
  lemma ExamplePagesCatalogue()
    ensures Perms.Perms(NumberedPages) == Perms.FixedPerms()["pages:1" := "A"]["pages:2" := "B"]
  {
    var ws := [("pages:1", "A"), ("pages:2", "B")];
    NumberedPagesWrites();
    assert Perms.Apply(Perms.FixedPerms(), ws) == Perms.Apply(Perms.FixedPerms()["pages:1" := "A"], ws[1..]);
  }

  /** In the returned array, `pages:1` and `pages:2` follow the fixed keys in
      that order. */
  lemma ExamplePagesKeyOrder()
    ensures Perms.KeyOrder(NumberedPages) == Perms.FixedOrder + ["pages:1", "pages:2"]
  {
    KeyOrderPageKeys(NumberedPages);
    NumberedPagesWrites();
    FixedKeysMissPages();
    NewKeysOneTwo(Perms.FixedPerms().Keys);
  }

  /** Only unfolds the definition of `Perms.KeyOrder`. */
  lemma KeyOrderPageKeys(w: Wiki)
    ensures Perms.KeyOrder(w) == Perms.FixedOrder + Perms.NewKeys(Perms.FixedPerms().Keys, Perms.PageWrites(w))
  {
  }

  lemma FixedKeysMissPages()
    ensures "pages:1" !in Perms.FixedPerms() && "pages:2" !in Perms.FixedPerms()
  {
    Perms.OperationKeys();
  }

  lemma NewKeysOneTwo(seen: set<string>)
    requires "pages:1" !in seen && "pages:2" !in seen
    ensures Perms.NewKeys(seen, [("pages:1", "A"), ("pages:2", "B")]) == ["pages:1", "pages:2"]
  {
    var ws := [("pages:1", "A"), ("pages:2", "B")];
    assert ws[1..] == [("pages:2", "B")];
    assert Perms.NewKeys(seen + {"pages:1"}, ws[1..]) == ["pages:2"] + Perms.NewKeys(seen + {"pages:1", "pages:2"}, []);
  }

  /** A page the driver has no id for gets the key `pages:`. */
  lemma ExampleUnknownIdCatalogue()
    ensures Perms.Perms(Pages(page => if page == "A" then Success(None) else Success(Some("2"))))
         == Perms.FixedPerms()["pages:" := "A"]["pages:2" := "B"]
  {
    var w := Pages(page => if page == "A" then Success(None) else Success(Some("2")));
    SortBA();
    var ws := [("pages:", "A"), ("pages:2", "B")];
    assert w.getPages == Success(["B", "A"]);
    assert w.getPageId("A") == Success(None) && w.getPageId("B") == Success(Some("2"));
    assert Perms.DynamicKey(None) == "pages:" && Perms.DynamicKey(Some("2")) == "pages:2";
    WritesAB(w);
    assert Perms.PageWrites(w) == ws;
    assert Perms.Apply(Perms.FixedPerms(), ws) == Perms.Apply(Perms.FixedPerms()["pages:" := "A"], ws[1..]);
  }

  /** A getPageId that throws at "B" ends the loop: the entry for "A", made
      before it, is kept and "B" gets none. */
  lemma ExampleThrowingIdCatalogue()
    ensures Perms.Perms(Pages(page => if page == "A" then Success(Some("1")) else Failure("no driver")))
         == Perms.FixedPerms()["pages:1" := "A"]
  {
    var w := Pages(page => if page == "A" then Success(Some("1")) else Failure("no driver"));
    SortBA();
    var ws := [("pages:1", "A")];
    assert w.getPages == Success(["B", "A"]);
    assert w.getPageId("A") == Success(Some("1")) && w.getPageId("B").Failure?;
    assert Perms.DynamicKey(Some("1")) == "pages:1";
    WritesAB(w);
    assert Perms.PageWrites(w) == ws;
    assert Perms.Apply(Perms.FixedPerms(), ws) == Perms.Apply(Perms.FixedPerms()["pages:1" := "A"], ws[1..]);
  }

  /** The loop over "A", "B" in the catalogue scenarios, one step at a time. */
  lemma WritesAB(w: Wiki)
    requires w.getPages == Success(["B", "A"])
    ensures Perms.PageWrites(w) == Perms.Writes(w.getPageId, ["A", "B"])
    ensures w.getPageId("A").Success? ==>
      Perms.PageWrites(w) == [(Perms.DynamicKey(w.getPageId("A").value), "A")] + Perms.Writes(w.getPageId, ["B"])
    ensures w.getPageId("B").Success? ==>
      Perms.Writes(w.getPageId, ["B"]) == [(Perms.DynamicKey(w.getPageId("B").value), "B")]
    ensures w.getPageId("B").Failure? ==> Perms.Writes(w.getPageId, ["B"]) == []
  {
    SortBA();
    assert ["A", "B"][1..] == ["B"];
    assert ["B"][1..] == [];
  }
}
