/**
 * The room's ordered member list as a sequence, with the list operations the
 * room performs on it: appending, removing the first equal element (list
 * removal by equality), dropping everyone called by a nickname, and
 * changing the role of a named member.
 */
module MucMembers {
  import opened MucEvents

  /** No two members of `s` share a nickname. */
  predicate UniqueNames(s: seq<RoomMember>)
  {
    forall i, j :: 0 <= i < j < |s| ==> s[i].name != s[j].name
  }

  /** Some member of `s` is called `name`. */
  predicate NameTaken(s: seq<RoomMember>, name: string)
  {
    exists m :: m in s && m.name == name
  }

  /** Position `k` holds the first member of `s` called `name`. */
  predicate FirstWithName(s: seq<RoomMember>, k: int, name: string)
  {
    0 <= k < |s| && s[k].name == name && forall j :: 0 <= j < k ==> s[j].name != name
  }

  /** The position of the first occurrence of `x` in `s`. */
  function IndexOf<T(==)>(s: seq<T>, x: T): (k: nat)
    requires x in s
    ensures k < |s| && s[k] == x && x !in s[..k]
  {
    if s[0] == x then 0 else 1 + IndexOf(s[1..], x)
  }

  /** List removal by equality: drops the first occurrence of `x`, if any. */
  function RemoveFirst<T(==)>(s: seq<T>, x: T): (r: seq<T>)
    ensures x in s ==> |r| == |s| - 1
    ensures x !in s ==> r == s
  {
    if s == [] then []
    else if s[0] == x then s[1..]
    else [s[0]] + RemoveFirst(s[1..], x)
  }

  /** Removal deletes exactly the first occurrence and keeps the others in order. */
  lemma {:induction false} RemoveFirstAt<T>(s: seq<T>, x: T)
    requires x in s
    ensures RemoveFirst(s, x) == s[..IndexOf(s, x)] + s[IndexOf(s, x) + 1..]
  {
    if s[0] != x {
      var t := s[1..];
      assert x in t;
      RemoveFirstAt(t, x);
      var k := IndexOf(t, x);
      assert IndexOf(s, x) == 1 + k;
      assert RemoveFirst(s, x) == [s[0]] + (t[..k] + t[k + 1..]);
      assert s[..1 + k] == [s[0]] + t[..k];
      assert s[1 + k + 1..] == t[k + 1..];
    }
  }

  /** Deleting the first occurrence of an element that does not occur in `a`. */
  lemma SpliceAfter<T>(a: seq<T>, x: T, b: seq<T>, c: seq<T>)
    requires x !in a && c == a + ([x] + b)
    ensures x in c
    ensures c[..IndexOf(c, x)] + c[IndexOf(c, x) + 1..] == a + b
  {
    assert c[|a|] == x;
    assert c[..|a|] == a;
    assert c[|a| + 1..] == b;
  }

  /** Removal keeps the nicknames unique. */
  lemma UniqueAfterRemoveFirst(s: seq<RoomMember>, x: RoomMember)
    requires UniqueNames(s)
    ensures UniqueNames(RemoveFirst(s, x))
  {
    if x in s {
      RemoveFirstAt(s, x);
      UniqueSplice(s, IndexOf(s, x));
    }
  }

  /** Cutting one member out keeps the nicknames unique. */
  lemma UniqueSplice(s: seq<RoomMember>, k: nat)
    requires UniqueNames(s) && k < |s|
    ensures UniqueNames(s[..k] + s[k + 1..])
  {
    var r := s[..k] + s[k + 1..];
    forall i, j | 0 <= i < j < |r|
      ensures r[i].name != r[j].name
    {
      var i' := if i < k then i else i + 1;
      var j' := if j < k then j else j + 1;
      assert r[i] == s[i'] && r[j] == s[j'];
    }
  }

  /** `s` without the members called `name`, the others in their order. */
  function Without(s: seq<RoomMember>, name: string): (r: seq<RoomMember>)
    ensures |r| <= |s|
    ensures forall k :: 0 <= k < |r| ==> r[k].name != name
  {
    if s == [] then []
    else
      var last := s[|s| - 1];
      Without(s[..|s| - 1], name) + (if last.name == name then [] else [last])
  }

  /** Exactly the members not called `name` survive. */
  lemma {:induction false} WithoutMembers(s: seq<RoomMember>, name: string, m: RoomMember)
    ensures m in Without(s, name) <==> m in s && m.name != name
  {
    if s != [] {
      var n := |s|;
      WithoutMembers(s[..n - 1], name, m);
      assert s == s[..n - 1] + [s[n - 1]];
    }
  }

  /** Dropping a nickname nobody has changes nothing. */
  lemma {:induction false} WithoutAbsent(s: seq<RoomMember>, name: string)
    requires !NameTaken(s, name)
    ensures Without(s, name) == s
  {
    if s != [] {
      var n := |s|;
      assert s[n - 1] in s;
      WithoutAbsent(s[..n - 1], name);
      assert s[..n - 1] + [s[n - 1]] == s;
    }
  }

  /** With unique nicknames, dropping a present one deletes just that member. */
  lemma {:induction false} WithoutSingle(s: seq<RoomMember>, name: string, k: nat)
    requires UniqueNames(s)
    requires k < |s| && s[k].name == name
    ensures Without(s, name) == s[..k] + s[k + 1..]
  {
    var n := |s|;
    var init := s[..n - 1];
    var last := s[n - 1];
    assert UniqueNames(init);
    assert Without(s, name) == Without(init, name) + (if last.name == name then [] else [last]);
    if k == n - 1 {
      assert !NameTaken(init, name);
      WithoutAbsent(init, name);
      assert s[..k] == init;
    } else {
      assert last.name != name;
      WithoutSingle(init, name, k);
      assert init[..k] == s[..k];
      assert init[k + 1..] + [last] == s[k + 1..];
    }
  }

  /** `s` with every member called `name` given `role`, nothing else touched. */
  function WithRole(s: seq<RoomMember>, name: string, role: Role): (r: seq<RoomMember>)
    ensures |r| == |s|
    ensures forall i :: 0 <= i < |s| ==> r[i].name == s[i].name
    ensures forall i :: 0 <= i < |s| && s[i].name == name ==> r[i].role == role
    ensures forall i :: 0 <= i < |s| && s[i].name != name ==> r[i] == s[i]
  {
    seq(|s|, i requires 0 <= i < |s| => if s[i].name == name then s[i].(role := role) else s[i])
  }

  /** Giving a role to a nickname nobody has changes nothing. */
  lemma AbsentWithRole(s: seq<RoomMember>, name: string, role: Role)
    requires !NameTaken(s, name)
    ensures WithRole(s, name, role) == s
  {
    assert forall i :: 0 <= i < |s| ==> s[i] in s;
  }
}
