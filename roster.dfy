/** The member roster: member records in a list, looked up by member id. */
module Roster {
  import opened Wrappers

  /** A member; `borrowed` lists the ISBNs the member currently has, once per copy. */
  datatype Member = Member(memberId: string, name: string, email: string, borrowed: seq<string>)

  /** find_member: the position of the first member with the given id, if any. */
  function FindMember(members: seq<Member>, id: string): (r: Option<nat>)
    ensures r.Some? ==> r.value < |members| && members[r.value].memberId == id
    ensures r.Some? ==> forall j :: 0 <= j < r.value ==> members[j].memberId != id
    ensures r.None? <==> forall j :: 0 <= j < |members| ==> members[j].memberId != id
  {
    if members == [] then None
    else if members[0].memberId == id then Some(0)
    else
      match FindMember(members[1..], id)
      case None => None
      case Some(i) => Some(i + 1)
  }

  /** The lookup depends only on the ids, position by position. */
  lemma FindMemberByIds(a: seq<Member>, b: seq<Member>, id: string)
    requires |a| == |b|
    requires forall j :: 0 <= j < |a| ==> a[j].memberId == b[j].memberId
    ensures FindMember(a, id) == FindMember(b, id)
  {
    var fa, fb := FindMember(a, id), FindMember(b, id);
    if fa.Some? && fb.Some? {
      assert !(fa.value < fb.value) && !(fb.value < fa.value);
    }
  }

  /** Appending a member (`members.append`) leaves every earlier lookup as it was and makes an
      unused id find the new member. */
  lemma {:induction false} FindMemberAppend(members: seq<Member>, m: Member, id: string)
    ensures FindMember(members + [m], id) ==
      if FindMember(members, id).Some? then FindMember(members, id)
      else if m.memberId == id then Some(|members|)
      else None
    decreases |members|
  {
    if members != [] && members[0].memberId != id {
      assert (members + [m])[1..] == members[1..] + [m];
      FindMemberAppend(members[1..], m, id);
    }
  }

  /** No two members share an id. */
  predicate UniqueIds(members: seq<Member>)
  {
    forall j, k :: 0 <= j < k < |members| ==> members[j].memberId != members[k].memberId
  }

  /** Appending a member with an unused id (add_member) keeps the ids unique. */
  lemma AppendKeepsIds(members: seq<Member>, m: Member)
    requires UniqueIds(members) && FindMember(members, m.memberId).None?
    ensures UniqueIds(members + [m])
  {
    var ms := members + [m];
    forall j, k | 0 <= j < k < |ms| ensures ms[j].memberId != ms[k].memberId {
      assert ms[j] == members[j];
      if k < |members| {
        assert ms[k] == members[k];
      }
    }
  }

  /** Removing the member at position i (`members.remove(m)` for the member found at i) keeps
      the ids unique, and drops exactly that member's id. */
  lemma RemoveAtKeepsIds(members: seq<Member>, i: nat, id: string)
    requires UniqueIds(members) && i < |members|
    ensures UniqueIds(members[..i] + members[i + 1..])
    ensures FindMember(members[..i] + members[i + 1..], id).None? <==>
            id == members[i].memberId || FindMember(members, id).None?
  {
    var rest := members[..i] + members[i + 1..];
    assert forall j :: 0 <= j < |rest| ==> rest[j] == members[Skip(i, j)];
    DropKeepsUnique(members, rest, i);
    DropKeepsLookup(members, rest, i, id);
  }

  /** Position j of a list with position i dropped is position Skip(i, j) of the original. */
  function Skip(i: nat, j: nat): nat
  {
    if j < i then j else j + 1
  }

  lemma DropKeepsUnique(members: seq<Member>, rest: seq<Member>, i: nat)
    requires UniqueIds(members) && i < |members| && |rest| == |members| - 1
    requires forall j :: 0 <= j < |rest| ==> rest[j] == members[Skip(i, j)]
    ensures UniqueIds(rest)
  {
    forall j, k | 0 <= j < k < |rest| ensures rest[j].memberId != rest[k].memberId {
      assert rest[j] == members[Skip(i, j)] && rest[k] == members[Skip(i, k)];
    }
  }

  lemma DropKeepsLookup(members: seq<Member>, rest: seq<Member>, i: nat, id: string)
    requires UniqueIds(members) && i < |members| && |rest| == |members| - 1
    requires forall j :: 0 <= j < |rest| ==> rest[j] == members[Skip(i, j)]
    ensures FindMember(rest, id).None? <==> id == members[i].memberId || FindMember(members, id).None?
  {
    if id == members[i].memberId {
      forall j | 0 <= j < |rest| ensures rest[j].memberId != id {
        assert rest[j] == members[Skip(i, j)];
      }
    } else if FindMember(rest, id).None? {
      forall j | 0 <= j < |members| ensures members[j].memberId != id {
        if j < i { assert members[j] == rest[j]; }
        else if j > i { assert members[j] == rest[j - 1]; }
      }
    } else {
      var j := FindMember(rest, id).value;
      assert rest[j] == members[Skip(i, j)];
    }
  }

  /** The position of the first occurrence of x in s. */
  function FirstIndex(s: seq<string>, x: string): (i: nat)
    requires x in s
    ensures i < |s| && s[i] == x && x !in s[..i]
  {
    if s[0] == x then 0
    else
      assert x in s[1..];
      var j := FirstIndex(s[1..], x);
      assert s[..j + 1] == [s[0]] + s[1..][..j];
      j + 1
  }

  /** `s.remove(x)`, defined as s with its first occurrence of x dropped. The contract states
      what the rest of the model relies on: exactly one copy of x leaves, and nothing else. */
  function RemoveFirst(s: seq<string>, x: string): (r: seq<string>)
    requires x in s
    ensures |r| == |s| - 1
    ensures multiset(r) == multiset(s) - multiset{x}
  {
    var i := FirstIndex(s, x);
    assert s == s[..i] + [x] + s[i + 1..];
    s[..i] + s[i + 1..]
  }
}
