/** The tracked record and the list operations the tracker applies to it. */
module Items {
  import opened Decimal

  /** One tracked thing: `expiryDate` is the `yyyy-mm-dd` text of the form's
      date field, `notes` may be empty. */
  datatype Item = Item(id: string, name: string, expiryDate: string, notes: string)

  /** The id a new item gets: `Date.now().toString()`, the decimal numeral of
      the millisecond timestamp. */
  function TimestampId(now: int): (id: string)
    ensures |id| > 0
  {
    IntToString(now)
  }

  /** Items made at different milliseconds get different ids; two made in the
      same millisecond share one. */
  lemma TimestampIdInjective(t: int, u: int)
    ensures TimestampId(t) == TimestampId(u) <==> t == u
  {
    if TimestampId(t) == TimestampId(u) {
      IntToStringInjective(t, u);
    }
  }

  predicate HasId(s: seq<Item>, id: string) {
    exists i :: 0 <= i < |s| && s[i].id == id
  }

  predicate UniqueIds(s: seq<Item>) {
    forall i, j :: 0 <= i < j < |s| ==> s[i].id != s[j].id
  }

  /** `items.filter(item => item.id !== id)`: the items whose id differs, in
      their original order. */
  function RemoveId(s: seq<Item>, id: string): (r: seq<Item>)
    ensures |r| <= |s|
  {
    if s == [] then []
    else (if s[0].id == id then [] else [s[0]]) + RemoveId(s[1..], id)
  }

  /** Exactly the items whose id differs survive a delete. */
  lemma {:induction false} RemoveIdMembers(s: seq<Item>, id: string)
    ensures forall x :: x in RemoveId(s, id) <==> x in s && x.id != id
  {
    if s != [] {
      RemoveIdMembers(s[1..], id);
      assert s == [s[0]] + s[1..];
    }
  }

  /** Filtering a concatenation filters each part and keeps them in order:
      the relative order of the kept items never changes. */
  lemma {:induction false} RemoveIdConcat(a: seq<Item>, b: seq<Item>, id: string)
    ensures RemoveId(a + b, id) == RemoveId(a, id) + RemoveId(b, id)
  {
    if a != [] {
      assert (a + b)[1..] == a[1..] + b;
      RemoveIdConcat(a[1..], b, id);
    } else {
      assert a + b == b;
    }
  }

  /** Deleting an id no item carries leaves the list as it was. */
  lemma {:induction false} RemoveIdAbsent(s: seq<Item>, id: string)
    requires !HasId(s, id)
    ensures RemoveId(s, id) == s
  {
    if s != [] {
      assert !HasId(s[1..], id) by {
        forall i | 0 <= i < |s[1..]| ensures s[1..][i].id != id {
          assert s[1..][i] == s[i + 1];
        }
      }
      RemoveIdAbsent(s[1..], id);
      assert s[0].id != id;
      assert s == [s[0]] + s[1..];
    }
  }

  /** Deleting twice is deleting once. */
  lemma {:induction false} RemoveIdIdempotent(s: seq<Item>, id: string)
    ensures RemoveId(RemoveId(s, id), id) == RemoveId(s, id)
  {
    var r := RemoveId(s, id);
    RemoveIdMembers(s, id);
    assert !HasId(r, id) by {
      forall i | 0 <= i < |r| ensures r[i].id != id {
        assert r[i] in r;
      }
    }
    RemoveIdAbsent(r, id);
  }

  /** With unique ids, no item other than the `i`th carries its id. */
  lemma {:induction false} UniqueIdsElsewhere(s: seq<Item>, i: nat)
    requires UniqueIds(s) && i < |s|
    ensures !HasId(s[..i], s[i].id) && !HasId(s[i + 1..], s[i].id)
  {
    var pre, post := s[..i], s[i + 1..];
    forall j | 0 <= j < |pre| ensures pre[j].id != s[i].id {
      assert pre[j] == s[j];
    }
    forall j | 0 <= j < |post| ensures post[j].id != s[i].id {
      assert post[j] == s[i + 1 + j];
    }
  }

  /** Deleting the id of one item, when no other item carries it, leaves the
      items around it in order. */
  lemma {:induction false} RemoveIdMiddle(pre: seq<Item>, x: Item, post: seq<Item>, id: string)
    requires !HasId(pre, id) && !HasId(post, id) && x.id == id
    ensures RemoveId(pre + [x] + post, id) == pre + post
  {
    var front := pre + [x];
    RemoveIdAbsent(pre, id);
    RemoveIdAbsent(post, id);
    assert [x][1..] == [];
    assert RemoveId([x], id) == [];
    RemoveIdConcat(pre, [x], id);
    assert RemoveId(front, id) == pre;
    RemoveIdConcat(front, post, id);
  }

  /** When ids are unique and the id is present, deleting removes exactly the
      one item that carries it and leaves the rest in order. */
  lemma {:induction false} RemoveIdUnique(s: seq<Item>, id: string, i: nat)
    requires UniqueIds(s) && i < |s| && s[i].id == id
    ensures RemoveId(s, id) == s[..i] + s[i + 1..]
  {
    UniqueIdsElsewhere(s, i);
    assert s == s[..i] + [s[i]] + s[i + 1..];
    RemoveIdMiddle(s[..i], s[i], s[i + 1..], id);
  }

  /** Appending an item whose id is new keeps ids unique. */
  lemma {:induction false} AppendKeepsUniqueIds(s: seq<Item>, x: Item)
    requires UniqueIds(s) && !HasId(s, x.id)
    ensures UniqueIds(s + [x])
  {
    var t := s + [x];
    forall i, j | 0 <= i < j < |t| ensures t[i].id != t[j].id {
      if j == |s| {
        assert t[i] == s[i];
      } else {
        assert t[i] == s[i] && t[j] == s[j];
      }
    }
  }

  /** Deleting the id of an item just appended, when no earlier item carries
      it, gives back the list as it was before the append. */
  lemma {:induction false} DeleteUndoesAppend(s: seq<Item>, x: Item)
    requires !HasId(s, x.id)
    ensures RemoveId(s + [x], x.id) == s
  {
    RemoveIdMiddle(s, x, [], x.id);
    assert s + [x] + [] == s + [x];
  }
}
