/**
 The pool state of the picker: the items still in the draw (`items`) and
 the items already drawn, oldest first (`removedItems`), with the
 operations that replace, commit a draw to, and reset it.
 */
module Pool {
  import opened Items
  import opened Parse

  /** `items` are still in the draw; `removed` were drawn, most recent last. */
  datatype Pool = Pool(items: seq<Item>, removed: seq<Item>)

  /** The pool invariant: every id occurs once across both lists, so the two
      lists are disjoint by id and the by-id filter of a draw removes exactly
      one element. */
  predicate Valid(p: Pool) {
    DistinctIds(p.items + p.removed)
  }

  /** What the browser gave the initial load: the body text of the response
      to the bundled-list request, whatever its status, or nothing when the
      request or the body read was rejected. */
  datatype Fetched = Rejected | Received(text: string)

  /** `loadInitialData`: the parsed bundled list, or the synthetic dataset
      when the fetch failed; either way nothing is drawn yet. */
  function LoadInitial(fetched: Fetched): (p: Pool)
    ensures p.removed == []
    ensures Valid(p)
    ensures NumberedFromOne(p.items)
    ensures fetched.Rejected? ==> p.items == GenerateInitialData() && |p.items| == SyntheticCount
    ensures fetched.Received? ==> p.items == ParseItems(fetched.text)
  {
    match fetched
    case Rejected => Pool(GenerateInitialData(), [])
    case Received(text) => Pool(ParseItems(text), [])
  }

  /** What the file input delivered to `handleFileUpload`. */
  datatype Upload = NoFile | Unreadable | Contents(text: string)

  /** `handleFileUpload`: a readable file replaces the pool wholesale with its
      parse and empties the drawn list, whatever was there; no file, or a
      file whose text cannot be read, leaves the pool as it was. */
  function HandleUpload(p: Pool, upload: Upload): (r: Pool)
    ensures upload.Contents? ==> r.items == ParseItems(upload.text) && r.removed == []
    ensures !upload.Contents? ==> r == p
    ensures Valid(p) ==> Valid(r)
  {
    match upload
    case Contents(text) => Pool(ParseItems(text), [])
    case _ => p
  }

  /** `items.filter(item => item.id !== id)`: the items whose id differs,
      in their original order. */
  function Without(items: seq<Item>, id: nat): (r: seq<Item>)
    ensures |r| <= |items|
    ensures forall k :: 0 <= k < |r| ==> r[k].id != id
  {
    if |items| == 0 then []
    else if items[0].id == id then Without(items[1..], id)
    else [items[0]] + Without(items[1..], id)
  }

  /** The filter keeps exactly the items whose id differs. */
  lemma {:induction false} WithoutMembers(items: seq<Item>, id: nat)
    ensures forall x :: x in Without(items, id) <==> x in items && x.id != id
  {
    if |items| > 0 {
      WithoutMembers(items[1..], id);
      assert forall x :: x in items <==> x == items[0] || x in items[1..];
    }
  }

  /** With distinct ids, filtering out the id of position `i` removes that
      one position and keeps the rest in order. */
  lemma {:induction false} WithoutDistinct(items: seq<Item>, i: nat)
    requires DistinctIds(items)
    requires i < |items|
    ensures Without(items, items[i].id) == items[..i] + items[i + 1..]
  {
    var id := items[i].id;
    if i == 0 {
      WithoutAbsent(items[1..], id);
    } else {
      var tail := items[1..];
      assert tail[i - 1] == items[i];
      assert DistinctIds(tail) by {
        forall a, b | 0 <= a < b < |tail| ensures tail[a].id != tail[b].id {
          assert tail[a] == items[a + 1] && tail[b] == items[b + 1];
        }
      }
      WithoutDistinct(tail, i - 1);
      assert items[0].id != id;
      assert Without(items, id) == [items[0]] + Without(tail, id);
      assert tail[..i - 1] == items[1..i];
      assert tail[i..] == items[i + 1..];
      assert [items[0]] + items[1..i] == items[..i];
    }
  }

  /** Filtering out an id no item carries changes nothing. */
  lemma {:induction false} WithoutAbsent(items: seq<Item>, id: nat)
    requires forall k :: 0 <= k < |items| ==> items[k].id != id
    ensures Without(items, id) == items
  {
    if |items| > 0 {
      WithoutAbsent(items[1..], id);
      assert items == [items[0]] + items[1..];
    }
  }

  /** Removing position `i` and appending it after `rest` keeps the ids
      distinct. */
  lemma MoveToEndDistinct(items: seq<Item>, rest: seq<Item>, i: nat)
    requires DistinctIds(items + rest)
    requires i < |items|
    ensures DistinctIds(items[..i] + items[i + 1..] + rest + [items[i]])
  {
    var s := items + rest;
    var t := items[..i] + items[i + 1..] + rest + [items[i]];
    assert |t| == |s|;
    forall a, b | 0 <= a < b < |t|
      ensures t[a].id != t[b].id
    {
      var fa := if a < i then a else if a < |t| - 1 then a + 1 else i;
      var fb := if b < i then b else if b < |t| - 1 then b + 1 else i;
      assert t[a] == s[fa];
      assert t[b] == s[fb];
      assert fa != fb;
      if fa < fb {
        assert s[fa].id != s[fb].id;
      } else {
        assert s[fb].id != s[fa].id;
      }
    }
  }

  /** `finishSelection` on the pool: the item at `i` is appended to the
      drawn list and every item with its id is filtered out of the pool. */
  function Commit(p: Pool, i: nat): (r: Pool)
    requires i < |p.items|
    ensures r.removed == p.removed + [p.items[i]]
    ensures p.items[i] !in r.items
    ensures forall x :: x in r.items <==> x in p.items && x.id != p.items[i].id
  {
    WithoutMembers(p.items, p.items[i].id);
    Pool(Without(p.items, p.items[i].id), p.removed + [p.items[i]])
  }

  /** On a valid pool a commit moves exactly one item: the pool loses
      position `i` and nothing else, in order; the total count, the multiset
      of all items and the invariant are kept. */
  lemma CommitMovesOne(p: Pool, i: nat)
    requires Valid(p)
    requires i < |p.items|
    ensures Commit(p, i).items == p.items[..i] + p.items[i + 1..]
    ensures |Commit(p, i).items| == |p.items| - 1
    ensures |Commit(p, i).items| + |Commit(p, i).removed| == |p.items| + |p.removed|
    ensures multiset(Commit(p, i).items + Commit(p, i).removed) == multiset(p.items + p.removed)
    ensures Valid(Commit(p, i))
  {
    assert DistinctIds(p.items) by {
      assert forall k :: 0 <= k < |p.items| ==> (p.items + p.removed)[k] == p.items[k];
    }
    WithoutDistinct(p.items, i);
    var r := Commit(p, i);
    assert p.items == p.items[..i] + [p.items[i]] + p.items[i + 1..];
    assert r.items + r.removed == p.items[..i] + p.items[i + 1..] + p.removed + [p.items[i]];
    MoveToEndDistinct(p.items, p.removed, i);
  }

  /** `resetItems`: the drawn items go back after the remaining ones and the
      drawn list empties. */
  function Reset(p: Pool): (r: Pool)
    ensures r.removed == []
    ensures |r.items| == |p.items| + |p.removed|
    ensures r.items[..|p.items|] == p.items
    ensures r.items[|p.items|..] == p.removed
  {
    Pool(p.items + p.removed, [])
  }

  /** Reset keeps every item, keeps the invariant, and a second reset does
      nothing. */
  lemma ResetProperties(p: Pool)
    ensures multiset(Reset(p).items) == multiset(p.items + p.removed)
    ensures Valid(p) ==> Valid(Reset(p))
    ensures Reset(Reset(p)) == Reset(p)
  {
    assert Reset(p).items + [] == Reset(p).items;
  }

  /** A draw followed by a reset gives back the same multiset of items, with
      nothing drawn; from a fresh pool the drawn item goes to the end. */
  lemma CommitThenReset(p: Pool, i: nat)
    requires Valid(p)
    requires i < |p.items|
    ensures multiset(Reset(Commit(p, i)).items) == multiset(p.items + p.removed)
    ensures Reset(Commit(p, i)).removed == []
    ensures p.removed == [] ==>
              Reset(Commit(p, i)).items == p.items[..i] + p.items[i + 1..] + [p.items[i]]
  {
    CommitMovesOne(p, i);
    ResetProperties(Commit(p, i));
  }
}
