/** `Wicked_Application::perms()`: the permission catalogue, a map from
    permission key to title. It holds a root entry, four fixed entries for the
    special pages and, best effort, one `pages:<id>` entry per wiki page,
    visited in sorted name order. */
module Perms {
  import opened Wrappers
  import opened Names
  import opened Store

  const RootKey: string := "pages"

  /** The translated "Pages" title; the translation itself is left opaque. */
  const PagesTitle: string := "Pages"

  const Prefix: string := "pages:"

  /** The special pages that get a fixed entry, titled with their own name. */
  const Operations: seq<string> := ["AllPages", "LeastPopular", "MostPopular", "RecentChanges"]

  lemma OperationKeys()
    ensures forall op :: op in Operations <==> op in {"AllPages", "LeastPopular", "MostPopular", "RecentChanges"}
    ensures (set op | op in Operations :: Prefix + op)
      == {Prefix + "AllPages", Prefix + "LeastPopular", Prefix + "MostPopular", Prefix + "RecentChanges"}
  {
    assert forall op :: op in Operations <==> op in {"AllPages", "LeastPopular", "MostPopular", "RecentChanges"};
  }

  /** The root entry and the four special-page entries, made before the
      store is consulted. */
  function FixedPerms(): (m: map<string, string>)
    ensures m.Keys == {RootKey} + (set op | op in Operations :: Prefix + op)
    ensures m[RootKey] == PagesTitle
    ensures forall op | op in Operations :: m[Prefix + op] == op
  {
    OperationKeys();
    map[
      RootKey := PagesTitle,
      Prefix + "AllPages" := "AllPages",
      Prefix + "LeastPopular" := "LeastPopular",
      Prefix + "MostPopular" := "MostPopular",
      Prefix + "RecentChanges" := "RecentChanges"]
  }

  /** The key `'pages:' . $id`; the driver's `false` for an unknown page
      concatenates as the empty string. */
  function DynamicKey(id: Option<string>): (k: string)
    ensures |k| >= |Prefix| && k[..|Prefix|] == Prefix
    ensures k[|Prefix|..] == id.GetOr("")
  {
    Prefix + id.GetOr("")
  }

  /** The assignments the loop over the page names makes, in order, over the
      given names: one per name until the first getPageId that throws. */
  function Writes(getPageId: string -> Result<Option<string>, string>, names: seq<string>): (ws: seq<(string, string)>)
    ensures |ws| <= |names|
    ensures forall i :: 0 <= i < |ws| ==>
      && getPageId(names[i]).Success?
      && ws[i] == (DynamicKey(getPageId(names[i]).value), names[i])
    ensures |ws| < |names| ==> getPageId(names[|ws|]).Failure?
    decreases |names|
  {
    if names == [] then
      []
    else
      match getPageId(names[0])
      case Failure(_) => []
      case Success(id) => [(DynamicKey(id), names[0])] + Writes(getPageId, names[1..])
  }

  /** `$perms[$key] = $title` for each write in turn. */
  function Apply(acc: map<string, string>, ws: seq<(string, string)>): (r: map<string, string>)
    // assignments only add keys: everything present stays, everything written is there
    ensures acc.Keys <= r.Keys
    ensures forall i | 0 <= i < |ws| :: ws[i].0 in r
    decreases |ws|
  {
    if ws == [] then acc else Apply(acc[ws[0].0 := ws[0].1], ws[1..])
  }

  /** No write in `ws` is to key `k`. */
  ghost predicate Untouched(ws: seq<(string, string)>, k: string) {
    forall i :: 0 <= i < |ws| ==> ws[i].0 != k
  }

  /** `ws[i]` is the last write to its key. */
  ghost predicate IsLastWrite(ws: seq<(string, string)>, i: int) {
    0 <= i < |ws| && forall j :: i < j < |ws| ==> ws[j].0 != ws[i].0
  }

  /** Successive assignments: a key is present when it was present or written;
      an untouched key keeps its value; a written key holds its last write. */
  lemma {:induction false} ApplyLastWriteWins(acc: map<string, string>, ws: seq<(string, string)>)
    ensures forall k :: k in Apply(acc, ws) <==> k in acc || exists i :: 0 <= i < |ws| && ws[i].0 == k
    ensures forall i | 0 <= i < |ws| :: ws[i].0 in Apply(acc, ws)
    ensures forall k | k in acc && Untouched(ws, k) :: Apply(acc, ws)[k] == acc[k]
    ensures forall i | IsLastWrite(ws, i) :: Apply(acc, ws)[ws[i].0] == ws[i].1
    decreases |ws|
  {
    if ws != [] {
      var acc' := acc[ws[0].0 := ws[0].1];
      var tail := ws[1..];
      ApplyLastWriteWins(acc', tail);
      assert forall i :: 0 <= i < |tail| ==> tail[i] == ws[i + 1];
      forall k ensures k in Apply(acc, ws) <==> k in acc || exists i :: 0 <= i < |ws| && ws[i].0 == k {
        if exists i :: 0 <= i < |tail| && tail[i].0 == k {
          var i :| 0 <= i < |tail| && tail[i].0 == k;
          assert ws[i + 1].0 == k;
        }
        if exists i :: 0 <= i < |ws| && ws[i].0 == k {
          var i :| 0 <= i < |ws| && ws[i].0 == k;
          if i > 0 {
            assert tail[i - 1].0 == k;
          }
        }
      }
      forall k | k in acc && Untouched(ws, k) ensures Apply(acc, ws)[k] == acc[k] {
        assert ws[0].0 != k;
        assert Untouched(tail, k);
      }
      forall i | IsLastWrite(ws, i) ensures Apply(acc, ws)[ws[i].0] == ws[i].1 {
        if i == 0 {
          assert Untouched(tail, ws[0].0);
        } else {
          assert IsLastWrite(tail, i - 1);
        }
      }
    }
  }

  /** The assignments the try block makes: none when getPages throws,
      otherwise those of the loop over the sorted names. */
  function PageWrites(w: Wiki): (ws: seq<(string, string)>)
    ensures w.getPages.Failure? ==> ws == []
    ensures w.getPages.Success? ==>
      var names := SortNames(w.getPages.value);
      && |ws| <= |names|
      && (forall i :: 0 <= i < |ws| ==>
            w.getPageId(names[i]).Success? && ws[i] == (DynamicKey(w.getPageId(names[i]).value), names[i]))
      && (|ws| < |names| ==> w.getPageId(names[|ws|]).Failure?)
  {
    match w.getPages
    case Failure(_) => []
    case Success(pages) => Writes(w.getPageId, SortNames(pages))
  }

  /** Every page write is to a `pages:`-prefixed key, never the root. */
  lemma PageWritesMissRoot(w: Wiki)
    ensures Untouched(PageWrites(w), RootKey)
  {
    var ws := PageWrites(w);
    forall i | 0 <= i < |ws| ensures ws[i].0 != RootKey {
      var names := SortNames(w.getPages.value);
      assert ws[i].0 == DynamicKey(w.getPageId(names[i]).value);
      assert |ws[i].0| > |RootKey|;
    }
  }

  /** The catalogue before it is returned: the fixed entries overwritten by
      the page writes. */
  function Catalogue(w: Wiki): map<string, string> {
    Apply(FixedPerms(), PageWrites(w))
  }

  lemma CatalogueFixedEntries(w: Wiki)
    ensures RootKey in Catalogue(w) && Catalogue(w)[RootKey] == PagesTitle
    ensures forall op | op in Operations ::
      && Prefix + op in Catalogue(w)
      && (Untouched(PageWrites(w), Prefix + op) ==> Catalogue(w)[Prefix + op] == op)
  {
    ApplyLastWriteWins(FixedPerms(), PageWrites(w));
    PageWritesMissRoot(w);
  }

  lemma CatalogueKeys(w: Wiki)
    ensures Catalogue(w).Keys == FixedPerms().Keys + (set i | 0 <= i < |PageWrites(w)| :: PageWrites(w)[i].0)
  {
    var ws := PageWrites(w);
    ApplyLastWriteWins(FixedPerms(), ws);
    forall k ensures k in Catalogue(w).Keys <==> k in FixedPerms().Keys + (set i | 0 <= i < |ws| :: ws[i].0) {
      if k in Catalogue(w).Keys && k !in FixedPerms() {
        var i :| 0 <= i < |ws| && ws[i].0 == k;
      }
    }
  }

  lemma CatalogueLastWrite(w: Wiki)
    ensures forall i | IsLastWrite(PageWrites(w), i) ::
      PageWrites(w)[i].0 in Catalogue(w) && Catalogue(w)[PageWrites(w)[i].0] == PageWrites(w)[i].1
  {
    ApplyLastWriteWins(FixedPerms(), PageWrites(w));
  }

  /** The permission catalogue `perms()` returns: the fixed entries, then one
      entry per page name the loop reaches, later writes overwriting earlier. */
  function Perms(w: Wiki): (r: map<string, string>)
    // the root entry is always there and always titled "Pages"
    ensures RootKey in r && r[RootKey] == PagesTitle
    // the four fixed entries are always there, titled with their own name
    // unless a page's id makes its entry the same key
    ensures forall op | op in Operations ::
      && Prefix + op in r
      && (Untouched(PageWrites(w), Prefix + op) ==> r[Prefix + op] == op)
    // a throwing getPages leaves exactly the fixed entries
    ensures w.getPages.Failure? ==> r == FixedPerms()
    // the keys are the fixed ones and one per page the loop got through
    ensures r.Keys == FixedPerms().Keys + (set i | 0 <= i < |PageWrites(w)| :: PageWrites(w)[i].0)
    // a page key is titled with the last page, in sorted order, whose id gives it
    ensures forall i | IsLastWrite(PageWrites(w), i) :: r[PageWrites(w)[i].0] == PageWrites(w)[i].1
  {
    CatalogueFixedEntries(w);
    CatalogueKeys(w);
    CatalogueLastWrite(w);
    Catalogue(w)
  }

  /** A write that is not the last to its key is followed by one that is. */
  lemma {:induction false} LastWriteAfter(ws: seq<(string, string)>, i: int)
    requires 0 <= i < |ws|
    ensures exists j :: i <= j < |ws| && ws[j].0 == ws[i].0 && IsLastWrite(ws, j)
    decreases |ws| - i
  {
    if !IsLastWrite(ws, i) {
      var k :| i < k < |ws| && ws[k].0 == ws[i].0;
      LastWriteAfter(ws, k);
    } else {
      // `i` itself is the witness `j`
      assert ws[i].0 == ws[i].0;
    }
  }

  /** When several pages share an id, the entry for it is
      titled with one of them, and that one sorts no earlier than any page
      with the same id that the loop reached. */
  lemma PermsTitleSortsLast(w: Wiki, i: int)
    requires 0 <= i < |PageWrites(w)|
    ensures var ws := PageWrites(w);
      && ws[i].0 in Perms(w)
      && exists j :: i <= j < |ws| && ws[j].0 == ws[i].0 && Perms(w)[ws[i].0] == ws[j].1 && Below(ws[i].1, ws[j].1)
  {
    var ws := PageWrites(w);
    var names := SortNames(w.getPages.value);
    LastWriteAfter(ws, i);
    var j :| i <= j < |ws| && ws[j].0 == ws[i].0 && IsLastWrite(ws, j);
    assert ws[i].1 == names[i] && ws[j].1 == names[j];
    if i == j {
      BelowReflexive(names[i]);
    } else {
      assert Sorted(names);
    }
  }

  /** When a getPageId throws, the catalogue keeps exactly the
      entries for the sorted names before the one that threw. */
  lemma PermsKeepsEntriesBeforeThrow(w: Wiki, k: int)
    requires w.getPages.Success?
    requires 0 <= k < |SortNames(w.getPages.value)|
    requires w.getPageId(SortNames(w.getPages.value)[k]).Failure?
    requires forall i :: 0 <= i < k ==> w.getPageId(SortNames(w.getPages.value)[i]).Success?
    ensures |PageWrites(w)| == k
    ensures Perms(w).Keys == FixedPerms().Keys
      + (set i | 0 <= i < k :: DynamicKey(w.getPageId(SortNames(w.getPages.value)[i]).value))
  {
    var ws := PageWrites(w);
    var names := SortNames(w.getPages.value);
    assert (set i | 0 <= i < |ws| :: ws[i].0)
        == (set i | 0 <= i < k :: DynamicKey(w.getPageId(names[i]).value));
  }

  /** The catalogue does not depend on the order in which getPages lists the
      page names, because they are sorted first. */
  lemma PermsIgnoresListingOrder(w: Wiki, p: seq<string>, q: seq<string>)
    requires multiset(p) == multiset(q)
    ensures Perms(w.(getPages := Success(p))) == Perms(w.(getPages := Success(q)))
  {
    SortNamesOrderIndependent(p, q);
    var wp := w.(getPages := Success(p));
    var wq := w.(getPages := Success(q));
    assert PageWrites(wp) == Writes(w.getPageId, SortNames(p)) == PageWrites(wq);
  }

  /** The order in which `perms()` first inserts its fixed keys. */
  const FixedOrder: seq<string> := [RootKey] + OperationKeysInOrder(Operations)

  /** `pages:<op>` for each special page, in the order given. */
  function OperationKeysInOrder(ops: seq<string>): (ks: seq<string>)
    ensures |ks| == |ops|
    ensures forall i :: 0 <= i < |ops| ==> ks[i] == Prefix + ops[i]
  {
    if ops == [] then [] else [Prefix + ops[0]] + OperationKeysInOrder(ops[1..])
  }

  lemma FixedOrderKeys()
    ensures forall k :: k in FixedOrder <==> k in FixedPerms()
  {
    assert forall op :: op in Operations <==> op in {"AllPages", "LeastPopular", "MostPopular", "RecentChanges"};
  }

  /** The keys `ws` writes to. */
  ghost function WrittenKeys(ws: seq<(string, string)>): set<string> {
    set i | 0 <= i < |ws| :: ws[i].0
  }

  lemma WrittenKeysCons(ws: seq<(string, string)>)
    requires ws != []
    ensures WrittenKeys(ws) == {ws[0].0} + WrittenKeys(ws[1..])
  {
    forall k | k in WrittenKeys(ws) && k != ws[0].0 ensures k in WrittenKeys(ws[1..]) {
      var i :| 0 <= i < |ws| && ws[i].0 == k;
      assert ws[1..][i - 1].0 == k;
    }
    forall k | k in WrittenKeys(ws[1..]) ensures k in WrittenKeys(ws) {
      var i :| 0 <= i < |ws[1..]| && ws[1..][i].0 == k;
      assert ws[i + 1].0 == k;
    }
  }

  /** The keys written by `ws` that are not in `seen`, each once, in the order
      of their first write: a PHP array keeps a key where it was first
      inserted, and a later assignment to it changes only its value. */
  function NewKeys(seen: set<string>, ws: seq<(string, string)>): (ks: seq<string>)
    ensures forall p, q :: 0 <= p < q < |ks| ==> ks[p] != ks[q]
    ensures forall k :: k in ks <==> k !in seen && k in WrittenKeys(ws)
    decreases |ws|
  {
    if ws == [] then
      []
    else
      WrittenKeysCons(ws);
      if ws[0].0 in seen then NewKeys(seen, ws[1..]) else [ws[0].0] + NewKeys(seen + {ws[0].0}, ws[1..])
  }

  /** `ws` writes key `a` before it first writes key `b`. */
  ghost predicate WrittenBefore(ws: seq<(string, string)>, a: string, b: string) {
    exists i :: 0 <= i < |ws| && ws[i].0 == a && forall j :: 0 <= j <= i ==> ws[j].0 != b
  }

  /** The new keys come in the order of their first write. */
  lemma {:induction false} NewKeysInFirstWriteOrder(seen: set<string>, ws: seq<(string, string)>)
    ensures forall p, q :: 0 <= p < q < |NewKeys(seen, ws)| ==>
      WrittenBefore(ws, NewKeys(seen, ws)[p], NewKeys(seen, ws)[q])
    decreases |ws|
  {
    if ws != [] {
      var tail := ws[1..];
      var seen' := if ws[0].0 in seen then seen else seen + {ws[0].0};
      var rest := NewKeys(seen', tail);
      NewKeysInFirstWriteOrder(seen', tail);
      var ks := NewKeys(seen, ws);
      assert ks == (if ws[0].0 in seen then rest else [ws[0].0] + rest);
      forall p, q | 0 <= p < q < |ks| ensures WrittenBefore(ws, ks[p], ks[q]) {
        var b := ks[q];
        assert b in rest && b !in seen';
        if ws[0].0 !in seen && p == 0 {
          assert ws[0].0 == ks[p];
        } else {
          var p' := if ws[0].0 in seen then p else p - 1;
          var q' := if ws[0].0 in seen then q else q - 1;
          assert rest[p'] == ks[p] && rest[q'] == b;
          assert WrittenBefore(tail, rest[p'], rest[q']);
          var i :| 0 <= i < |tail| && tail[i].0 == ks[p] && forall j :: 0 <= j <= i ==> tail[j].0 != b;
          assert ws[i + 1].0 == ks[p];
          forall j | 0 <= j <= i + 1 ensures ws[j].0 != b {
            if j > 0 {
              assert ws[j] == tail[j - 1];
            }
          }
        }
      }
    }
  }

  /** The keys of the array `perms()` returns, in PHP's iteration order: the
      fixed keys as first inserted, then each new page key where its first
      write put it. */
  function KeyOrder(w: Wiki): (order: seq<string>)
    ensures |order| >= |FixedOrder| && order[..|FixedOrder|] == FixedOrder
    ensures forall p, q :: 0 <= p < q < |order| ==> order[p] != order[q]
    ensures forall k :: k in order <==> k in Perms(w)
  {
    var ks := NewKeys(FixedPerms().Keys, PageWrites(w));
    FixedOrderDistinct();
    KeyOrderKeys(w);
    AppendDistinct(FixedOrder, ks);
    FixedOrder + ks
  }

  lemma AppendDistinct(a: seq<string>, b: seq<string>)
    requires forall p, q :: 0 <= p < q < |a| ==> a[p] != a[q]
    requires forall p, q :: 0 <= p < q < |b| ==> b[p] != b[q]
    requires forall k :: k in a ==> k !in b
    ensures forall p, q :: 0 <= p < q < |a + b| ==> (a + b)[p] != (a + b)[q]
  {
    forall p, q | 0 <= p < q < |a + b| ensures (a + b)[p] != (a + b)[q] {
      if q < |a| {
        assert (a + b)[p] == a[p] && (a + b)[q] == a[q];
      } else if p < |a| {
        assert (a + b)[p] == a[p] && (a + b)[q] == b[q - |a|];
        assert a[p] in a && b[q - |a|] in b;
      } else {
        assert (a + b)[p] == b[p - |a|] && (a + b)[q] == b[q - |a|];
      }
    }
  }

  lemma FixedOrderDistinct()
    ensures forall p, q :: 0 <= p < q < |FixedOrder| ==> FixedOrder[p] != FixedOrder[q]
  {
  }

  lemma KeyOrderKeys(w: Wiki)
    ensures forall k :: k in FixedOrder ==> k !in NewKeys(FixedPerms().Keys, PageWrites(w))
    ensures forall k :: k in FixedOrder + NewKeys(FixedPerms().Keys, PageWrites(w)) <==> k in Perms(w)
  {
    FixedOrderKeys();
    assert Perms(w).Keys == FixedPerms().Keys + WrittenKeys(PageWrites(w));
  }

  /** Of two page keys, the first in the array is written by a page whose
      name sorts no later than every page that writes the second. */
  ghost predicate FirstWriterSortsFirst(ws: seq<(string, string)>, a: string, b: string) {
    exists i :: 0 <= i < |ws| && ws[i].0 == a &&
      forall j | 0 <= j < |ws| && ws[j].0 == b :: Below(ws[i].1, ws[j].1)
  }

  /** The loop writes in sorted name order. */
  lemma PageWritesSorted(w: Wiki)
    ensures forall i, j :: 0 <= i < j < |PageWrites(w)| ==> Below(PageWrites(w)[i].1, PageWrites(w)[j].1)
  {
    var ws := PageWrites(w);
    if w.getPages.Success? {
      var names := SortNames(w.getPages.value);
      assert forall i :: 0 <= i < |ws| ==> ws[i].1 == names[i];
    }
  }

  /** In writes ordered by title, a key written before another's first write
      is written by a title no later than any of the other's. */
  lemma FirstWriterSortsFirstWhenSorted(ws: seq<(string, string)>, a: string, b: string)
    requires forall i, j :: 0 <= i < j < |ws| ==> Below(ws[i].1, ws[j].1)
    requires WrittenBefore(ws, a, b)
    ensures FirstWriterSortsFirst(ws, a, b)
  {
    var i :| 0 <= i < |ws| && ws[i].0 == a && forall j :: 0 <= j <= i ==> ws[j].0 != b;
    forall j | 0 <= j < |ws| && ws[j].0 == b ensures Below(ws[i].1, ws[j].1) {
      assert i < j;
    }
  }

  /** Of the new keys, each is written first by a title no later than every
      title that writes a key after it. */
  lemma NewKeysFollowSortedTitles(seen: set<string>, ws: seq<(string, string)>)
    requires forall i, j :: 0 <= i < j < |ws| ==> Below(ws[i].1, ws[j].1)
    ensures forall p, q | 0 <= p < q < |NewKeys(seen, ws)| ::
      FirstWriterSortsFirst(ws, NewKeys(seen, ws)[p], NewKeys(seen, ws)[q])
  {
    var ks := NewKeys(seen, ws);
    NewKeysInFirstWriteOrder(seen, ws);
    forall p, q | 0 <= p < q < |ks| ensures FirstWriterSortsFirst(ws, ks[p], ks[q]) {
      FirstWriterSortsFirstWhenSorted(ws, ks[p], ks[q]);
    }
  }

  /** Sorting is what orders the page keys of the returned array. */
  lemma PageKeysFollowSortedNames(w: Wiki)
    ensures forall p, q | |FixedOrder| <= p < q < |KeyOrder(w)| ::
      FirstWriterSortsFirst(PageWrites(w), KeyOrder(w)[p], KeyOrder(w)[q])
  {
    var ws := PageWrites(w);
    var order := KeyOrder(w);
    var ks := order[|FixedOrder|..];
    assert ks == NewKeys(FixedPerms().Keys, ws);
    PageWritesSorted(w);
    NewKeysFollowSortedTitles(FixedPerms().Keys, ws);
    SuffixPairs(ws, order, |FixedOrder|);
  }

  lemma SuffixPairs(ws: seq<(string, string)>, order: seq<string>, n: nat)
    requires n <= |order|
    requires forall p, q | 0 <= p < q < |order[n..]| :: FirstWriterSortsFirst(ws, order[n..][p], order[n..][q])
    ensures forall p, q | n <= p < q < |order| :: FirstWriterSortsFirst(ws, order[p], order[q])
  {
    forall p, q | n <= p < q < |order| ensures FirstWriterSortsFirst(ws, order[p], order[q]) {
      assert order[p] == order[n..][p - n] && order[q] == order[n..][q - n];
    }
  }
}
