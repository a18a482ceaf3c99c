/**
 The owned-string list of the miner header: `string_elist_add` appends a
 copy of a string at the tail of an intrusive list, `string_elist_del`
 unlinks one entry and frees its string when the entry owns it.

 The list is the sequence of its entries from head to tail; an entry is
 named by its position.
 */
module StringList {
  import opened Wrappers

  /** One `struct string_elist`: the string and whether the list owns it. */
  datatype Entry = Entry(text: string, freeMe: bool)

  /** What `string_elist_del` leaves behind: the list without the entry, and
      the string handed to `free`, if any. */
  datatype Removal = Removal(rest: seq<Entry>, freed: Option<string>)

  /** `string_elist_add(s, head)`: a new owned copy of `s` at the tail. */
  function Add(list: seq<Entry>, s: string): (r: seq<Entry>)
    ensures |r| == |list| + 1
    ensures r[..|list|] == list
    ensures r[|list|].text == s && r[|list|].freeMe
  {
    list + [Entry(s, true)]
  }

  /** `string_elist_del` on the entry at position `i`. */
  function Del(list: seq<Entry>, i: nat): (r: Removal)
    requires i < |list|
    ensures |r.rest| == |list| - 1
    ensures forall j :: 0 <= j < i ==> r.rest[j] == list[j]
    ensures forall j :: i <= j < |r.rest| ==> r.rest[j] == list[j + 1]
    ensures multiset(r.rest) + multiset{list[i]} == multiset(list)
    ensures r.freed.Some? <==> list[i].freeMe
    ensures r.freed.Some? ==> r.freed.value == list[i].text
  {
    assert list == list[..i] + [list[i]] + list[i + 1..];
    Removal(list[..i] + list[i + 1..], if list[i].freeMe then Some(list[i].text) else None)
  }

  /** Deleting the entry just added restores the list and frees the copy. */
  lemma DelAfterAdd(list: seq<Entry>, s: string)
    ensures Del(Add(list, s), |list|) == Removal(list, Some(s))
  {
    var r := Del(Add(list, s), |list|);
    assert r.rest == list;
  }

  /** Deleting an older entry and adding commute: the new tail entry is not
      disturbed by removing one before it. */
  lemma DelBeforeAdd(list: seq<Entry>, s: string, i: nat)
    requires i < |list|
    ensures Del(Add(list, s), i) == Removal(Add(Del(list, i).rest, s), Del(list, i).freed)
  {
    var l := Del(Add(list, s), i).rest;
    var r := Add(Del(list, i).rest, s);
    assert |l| == |r|;
    forall j | 0 <= j < |l|
      ensures l[j] == r[j]
    {
      if j < i {
        assert l[j] == list[j];
      } else if j < |list| - 1 {
        assert l[j] == list[j + 1];
      }
    }
  }

  /** Entries that own their string. */
  predicate AllOwned(list: seq<Entry>)
  {
    forall e :: e in list ==> e.freeMe
  }

  /** A list built only by `string_elist_add` owns every string, so each
      deletion frees exactly the deleted entry's text. */
  lemma {:induction false} AddsAreOwned(list: seq<Entry>, s: string)
    requires AllOwned(list)
    ensures AllOwned(Add(list, s))
    ensures forall i :: 0 <= i < |list| ==> Del(list, i).freed == Some(list[i].text)
  {
    forall e | e in Add(list, s)
      ensures e.freeMe
    {
      if e != Entry(s, true) {
        assert e in list;
      }
    }
    forall i | 0 <= i < |list|
      ensures Del(list, i).freed == Some(list[i].text)
    {
      assert list[i] in list;
    }
  }
}
