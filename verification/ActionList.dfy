/** Action lists and their comparison, which looks in one direction only.
    Source: controller/ironstack_types/openflow_action_list.cpp,
    controller/openflow_types/of_action.cpp. */
module ActionList {

  datatype Action =
    | Unknown
    | OutputToPort(sendToController: bool, port: nat)
    | Enqueue(port: nat, queueId: nat)
    | SetVlanId(vlanId: nat)
    | SetVlanPcp(vlanPcp: nat)
    | StripVlan
    | SetMacAddress(setSrc: bool, mac: seq<int>)
    | SetIpAddress(setSrc: bool, ip: seq<int>)
    | SetTypeOfService(tos: nat)
    | SetTransportPort(setSrcPort: bool, port: nat)
    | Vendor(vendor: nat, request: seq<int>)

  /** Actions of unknown type and vendor actions compare different from everything, themselves
      included. */
  predicate Comparable(a: Action) {
    !a.Unknown? && !a.Vendor?
  }

  /** `of_action::operator==`. */
  predicate Same(a: Action, b: Action) {
    match (a, b)
    case (OutputToPort(c, p), OutputToPort(c', p')) => c == c' && p == p'
    case (Enqueue(p, q), Enqueue(p', q')) => p == p' && q == q'
    case (SetVlanId(v), SetVlanId(v')) => v == v'
    case (SetVlanPcp(v), SetVlanPcp(v')) => v == v'
    case (StripVlan, StripVlan) => true
    case (SetMacAddress(s, m), SetMacAddress(s', m')) => s == s' && m == m'
    case (SetIpAddress(s, i), SetIpAddress(s', i')) => s == s' && i == i'
    case (SetTypeOfService(t), SetTypeOfService(t')) => t == t'
    case (SetTransportPort(s, p), SetTransportPort(s', p')) => s == s' && p == p'
    case _ => false
  }

  lemma SameMeansEqual(a: Action, b: Action)
    ensures Same(a, b) <==> a == b && !a.Unknown? && !a.Vendor?
  {
  }

  ghost predicate Found(a: Action, list: seq<Action>) {
    exists j :: 0 <= j < |list| && Same(a, list[j])
  }

  /** The comparison: equal sizes, and every action of the first list is found in the second. */
  ghost predicate Equal(first: seq<Action>, second: seq<Action>) {
    |first| == |second| && forall i :: 0 <= i < |first| ==> Found(first[i], second)
  }

  ghost predicate AllComparable(list: seq<Action>) {
    forall i :: 0 <= i < |list| ==> Comparable(list[i])
  }

  /** What `add_action` maintains: no two entries compare equal. */
  ghost predicate NoDuplicates(list: seq<Action>) {
    forall i, j :: 0 <= i < j < |list| ==> !Same(list[i], list[j])
  }

  lemma FoundMeansIn(a: Action, list: seq<Action>)
    ensures Found(a, list) <==> Comparable(a) && a in list
  {
    if Comparable(a) && a in list {
      var j :| 0 <= j < |list| && list[j] == a;
      SameMeansEqual(a, list[j]);
      assert Same(a, list[j]);
    }
  }

  /** In terms of membership. */
  lemma EqualMeansIncluded(first: seq<Action>, second: seq<Action>)
    ensures Equal(first, second)
            <==> |first| == |second| && AllComparable(first) && forall a :: a in first ==> a in second
  {
    forall i | 0 <= i < |first| ensures Found(first[i], second) <==> Comparable(first[i]) && first[i] in second {
      FoundMeansIn(first[i], second);
    }
  }

  /** The pigeonhole step: a duplicate-free list included in one of the same length is a
      rearrangement of it. */
  lemma {:induction false} IncludedIsPermutation(first: seq<Action>, second: seq<Action>)
    requires |first| == |second| && AllComparable(first) && NoDuplicates(first)
    requires forall a :: a in first ==> a in second
    ensures multiset(first) == multiset(second)
  {
    if first != [] {
      var a, rest := first[0], first[1..];
      assert first == [a] + rest && a in first;
      var j :| 0 <= j < |second| && second[j] == a;
      var others := second[..j] + second[j + 1..];
      assert second == second[..j] + [a] + second[j + 1..];
      HeadIsUnique(first);
      forall b | b in rest ensures b in others {
        assert b in first && b in second;
      }
      IncludedIsPermutation(rest, others);
      assert multiset(second) == multiset(others) + multiset{a};
    }
  }

  lemma HeadIsUnique(list: seq<Action>)
    requires list != [] && AllComparable(list) && NoDuplicates(list)
    ensures list[0] !in list[1..]
  {
    forall i | 0 <= i < |list| - 1 ensures list[1..][i] != list[0] {
      assert !Same(list[0], list[i + 1]);
      SameMeansEqual(list[0], list[i + 1]);
    }
  }

  /** On a duplicate-free first list the one-directional test is exactly equality of contents. */
  lemma EqualIsSameContents(first: seq<Action>, second: seq<Action>)
    requires NoDuplicates(first)
    ensures Equal(first, second) <==> AllComparable(first) && multiset(first) == multiset(second)
  {
    EqualMeansIncluded(first, second);
    if Equal(first, second) {
      IncludedIsPermutation(first, second);
    } else if multiset(first) == multiset(second) {
      assert |first| == |multiset(first)| && |second| == |multiset(second)|;
      forall a | a in first ensures a in second {
        assert a in multiset(first);
      }
    }
  }

  lemma EqualIsTransitive(first: seq<Action>, second: seq<Action>, third: seq<Action>)
    requires Equal(first, second) && Equal(second, third)
    ensures Equal(first, third)
  {
    EqualMeansIncluded(first, second);
    EqualMeansIncluded(second, third);
    EqualMeansIncluded(first, third);
  }

  /** A list equals itself exactly when it holds no unknown or vendor action. */
  lemma EqualIsReflexiveExactly(list: seq<Action>)
    ensures Equal(list, list) <==> AllComparable(list)
  {
    EqualMeansIncluded(list, list);
  }

  lemma EqualIsSymmetric(first: seq<Action>, second: seq<Action>)
    requires NoDuplicates(first) && Equal(first, second)
    ensures Equal(second, first) && NoDuplicates(second)
  {
    EqualIsSameContents(first, second);
    EqualMeansIncluded(second, first);
    forall a | a in second ensures a in first && Comparable(a) {
      assert a in multiset(second);
    }
    UniqueCounts(first);
    CountsAreUnique(second);
  }

  lemma CountsAreUnique(list: seq<Action>)
    requires forall a :: multiset(list)[a] <= 1
    ensures NoDuplicates(list)
  {
    forall i, j | 0 <= i < j < |list| ensures !Same(list[i], list[j]) {
      SameMeansEqual(list[i], list[j]);
      if list[i] == list[j] {
        DuplicateCounts(list, i, j);
      }
    }
  }

  /** Duplicates are multiplicities above one, as long as everything is comparable. */
  lemma {:induction false} UniqueCounts(list: seq<Action>)
    requires AllComparable(list) && NoDuplicates(list)
    ensures forall a :: multiset(list)[a] <= 1
  {
    if list != [] {
      HeadIsUnique(list);
      assert NoDuplicates(list[1..]);
      UniqueCounts(list[1..]);
      assert list == [list[0]] + list[1..];
      assert multiset(list) == multiset{list[0]} + multiset(list[1..]);
    }
  }

  lemma DuplicateCounts(list: seq<Action>, i: nat, j: nat)
    requires i < j < |list| && list[i] == list[j]
    ensures multiset(list)[list[i]] >= 2
  {
    var a := list[i];
    var back := list[i + 1..];
    assert list == list[..i] + [a] + back;
    assert back == back[..j - i - 1] + [a] + back[j - i..];
  }

  /** Overwriting the second of two duplicates by a vendor action. */
  lemma UnequalBack(first: seq<Action>) returns (second: seq<Action>)
    requires AllComparable(first) && !NoDuplicates(first)
    ensures Equal(first, second) && !Equal(second, first)
  {
    var i, j :| 0 <= i < j < |first| && Same(first[i], first[j]);
    second := first[j := Vendor(0, [])];
    SameMeansEqual(first[i], first[j]);
    forall a | a in first ensures a in second {
      var k :| 0 <= k < |first| && first[k] == a;
      assert second[if k == j then i else k] == a;
    }
    EqualMeansIncluded(first, second);
    EqualMeansIncluded(second, first);
    assert !Comparable(second[j]);
  }

  /** The exact condition for symmetry: a list with a duplicate equals some list that does not
      equal it back. */
  lemma SymmetryExact(first: seq<Action>)
    ensures (forall second :: Equal(first, second) ==> Equal(second, first))
            <==> NoDuplicates(first) || !AllComparable(first)
  {
    if NoDuplicates(first) {
      forall second | Equal(first, second) ensures Equal(second, first) {
        EqualIsSymmetric(first, second);
      }
    } else if AllComparable(first) {
      var second := UnequalBack(first);
    } else {
      forall second ensures !Equal(first, second) {
        EqualMeansIncluded(first, second);
      }
    }
  }

  class OpenflowActionList {
    var actions: seq<Action>

    constructor ()
      ensures actions == []
    {
      actions := [];
    }

    method Equals(other: OpenflowActionList) returns (equal: bool)
      ensures equal <==> Equal(actions, other.actions)
    {
      if |actions| != |other.actions| { return false; }
      for i := 0 to |actions|
        invariant forall k :: 0 <= k < i ==> Found(actions[k], other.actions)
      {
        var found := false;
        var j := 0;
        while j < |other.actions|
          invariant j <= |other.actions|
          invariant !found && forall k :: 0 <= k < j ==> !Same(actions[i], other.actions[k])
        {
          if Same(actions[i], other.actions[j]) {
            found := true;
            break;
          }
          j := j + 1;
        }
        if !found {
          assert !Found(actions[i], other.actions);
          return false;
        }
      }
      return true;
    }

    /** Keeps a list free of duplicates, and never drops or reorders what was there. */
    method AddAction(action: Action)
      modifies this
      ensures NoDuplicates(old(actions)) ==> NoDuplicates(actions)
      ensures actions == if Found(action, old(actions)) then old(actions) else old(actions) + [action]
    {
      for i := 0 to |actions|
        invariant actions == old(actions)
        invariant forall k :: 0 <= k < i ==> !Same(action, actions[k])
      {
        if Same(actions[i], action) {
          SameMeansEqual(actions[i], action);
          return;
        }
        SameMeansEqual(actions[i], action);
        SameMeansEqual(action, actions[i]);
      }
      forall k | 0 <= k < |actions| ensures !Same(actions[k], action) {
        SameMeansEqual(actions[k], action);
        SameMeansEqual(action, actions[k]);
      }
      actions := actions + [action];
    }
  }
}
