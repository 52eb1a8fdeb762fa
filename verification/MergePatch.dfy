/** JSON.MERGE: `mergePatch` (redis/json/core.go) against the rules of section 2 of RFC 7396. */
module MergePatch {
  import opened Common
  import opened JsonTree
  import opened JsonPath

  predicate Unique(ms: seq<Member>)
  {
    forall i, j :: 0 <= i < j < |ms| ==> ms[i].key != ms[j].key
  }

  /** `objGet`. */
  function Get(ms: seq<Member>, key: string): (r: Option<Value>)
  {
    var i := FindMember(ms, key);
    if i >= 0 then Some(ms[i].val) else None
  }

  /** `objSet`: replaces in place, appends when absent. */
  function With(ms: seq<Member>, key: string, v: Value): (r: seq<Member>)
    ensures Unique(ms) ==> Unique(r)
  {
    var i := FindMember(ms, key);
    if i >= 0 then ms[i := Member(key, v)] else ms + [Member(key, v)]
  }

  /** `objDelete`. */
  function Without(ms: seq<Member>, key: string): (r: seq<Member>)
    ensures Unique(ms) ==> Unique(r)
  {
    var i := FindMember(ms, key);
    if i >= 0 then ms[..i] + ms[i + 1..] else ms
  }

  /** The members a patch leaves, taking its members from the `i`th on, one after the other. */
  function MergeMembers(out: seq<Member>, patch: Value, i: nat): (r: seq<Member>)
    requires patch.Obj? && i <= |patch.members|
    ensures Unique(out) ==> Unique(r)
    decreases patch, |patch.members| - i
  {
    if i == |patch.members| then out
    else
      var m := patch.members[i];
      var next := if m.val == Leaf(Null) then Without(out, m.key) else With(out, m.key, Merged(Get(out, m.key), m.val));
      MergeMembers(next, patch, i + 1)
  }

  function Merged(target: Option<Value>, patch: Value): (r: Value)
    ensures r.Obj? <==> patch.Obj?
    decreases patch, if patch.Obj? then |patch.members| + 1 else 0
  {
    if !patch.Obj? then patch else Obj(MergeMembers(Fields(target), patch, 0))
  }

  /** What a patch object starts from: the target's members if it is an object, and none otherwise. */
  function Fields(target: Option<Value>): (r: seq<Member>)
  {
    if target.Some? && target.value.Obj? then target.value.members else []
  }

  /** `mergePatch`, as the loop it is. */
  method Merge(target: Option<Value>, patch: Value) returns (r: Value)
    ensures r == Merged(target, patch)
    decreases patch
  {
    if !patch.Obj? {
      return patch;
    }
    var out := Fields(target);
    for i := 0 to |patch.members|
      invariant MergeMembers(out, patch, i) == MergeMembers(Fields(target), patch, 0)
    {
      var m := patch.members[i];
      if m.val == Leaf(Null) {
        out := Without(out, m.key);
      } else {
        var merged := Merge(Get(out, m.key), m.val);
        out := With(out, m.key, merged);
      }
    }
    r := Obj(out);
  }

  // ---- The rules, member by member ----

  lemma FoundAt(ms: seq<Member>, i: nat)
    requires Unique(ms) && i < |ms|
    ensures FindMember(ms, ms[i].key) == i
  {
  }

  lemma GetWith(ms: seq<Member>, key: string, v: Value, k: string)
    requires Unique(ms)
    ensures Get(With(ms, key, v), k) == if k == key then Some(v) else Get(ms, k)
  {
    var r, i := With(ms, key, v), FindMember(ms, key);
    FoundAt(r, if i >= 0 then i else |ms|);
    var j := FindMember(ms, k);
    if j >= 0 {
      FoundAt(r, j);
    } else {
      assert forall x :: 0 <= x < |ms| ==> ms[x].key != k;
    }
  }

  lemma GetWithout(ms: seq<Member>, key: string, k: string)
    requires Unique(ms)
    ensures Get(Without(ms, key), k) == if k == key then None else Get(ms, k)
  {
    hide FindMember, Unique;
    var r, i := Without(ms, key), FindMember(ms, key);
    if i >= 0 {
      var j, f := FindMember(ms, k), FindMember(r, k);
      assert forall x :: 0 <= x < |r| ==> r[x] == if x < i then ms[x] else ms[x + 1];
      hide Without;
      if f >= 0 {
        FoundAt(ms, if f < i then f else f + 1);
      }
      assert 0 <= j < i ==> r[j].key == k;
      assert i < j ==> r[j - 1].key == k;
    }
  }

  /** What a patch asks of one member, given the member's old value. */
  function Asked(was: Option<Value>, patch: Option<Value>): (r: Option<Value>)
  {
    match patch
    case None => was
    case Some(p) => if p == Leaf(Null) then None else Some(Merged(was, p))
  }

  lemma {:induction false} MergeMembersGet(out: seq<Member>, patch: Value, i: nat, k: string)
    requires Unique(out) && patch.Obj? && ValidValue(patch) && i <= |patch.members|
    ensures Get(MergeMembers(out, patch, i), k) == Asked(Get(out, k), Get(patch.members[i..], k))
    decreases |patch.members| - i
  {
    if i < |patch.members| {
      var m, rest := patch.members[i], patch.members[i..];
      assert rest[0] == m && rest[1..] == patch.members[i + 1..];
      var next := if m.val == Leaf(Null) then Without(out, m.key) else With(out, m.key, Merged(Get(out, m.key), m.val));
      MergeMembersGet(next, patch, i + 1, k);
      if m.val == Leaf(Null) {
        GetWithout(out, m.key, k);
      } else {
        GetWith(out, m.key, Merged(Get(out, m.key), m.val), k);
      }
      if k == m.key {
        var after := patch.members[i + 1..];
        assert forall x :: 0 <= x < |after| ==> after[x] == patch.members[i + 1 + x];
        assert FindMember(after, k) < 0;
      }
    }
  }

  /** RFC 7396: absent members stay, null members go, the others are merged into what was there. */
  lemma MergeRule(target: Option<Value>, patch: Value, k: string)
    requires patch.Obj? && ValidValue(patch) && (target.Some? ==> ValidValue(target.value))
    ensures Get(Fields(Some(Merged(target, patch))), k) == Asked(Get(Fields(target), k), Get(patch.members, k))
    ensures Unique(Fields(Some(Merged(target, patch))))
  {
    MergeMembersGet(Fields(target), patch, 0, k);
    assert patch.members[0..] == patch.members;
  }

  // ---- Applying a patch twice ----

  lemma {:induction false} MergeMembersStay(out: seq<Member>, patch: Value, i: nat)
    requires Unique(out) && patch.Obj? && ValidValue(patch) && i <= |patch.members|
    requires forall k :: 0 <= k < |patch.members| ==>
               var m := patch.members[k]; Asked(Get(out, m.key), Some(m.val)) == Get(out, m.key)
    ensures MergeMembers(out, patch, i) == out
    decreases |patch.members| - i
  {
    if i < |patch.members| {
      var m := patch.members[i];
      assert Asked(Get(out, m.key), Some(m.val)) == Get(out, m.key);
      if m.val != Leaf(Null) {
        var f := FindMember(out, m.key);
        assert out[f := Member(m.key, out[f].val)] == out;
      }
      MergeMembersStay(out, patch, i + 1);
    }
  }

  /** A patch asks nothing of its own result: merging it again changes nothing, member order included. */
  lemma {:induction false} MergeTwice(target: Option<Value>, patch: Value)
    requires ValidValue(patch) && (target.Some? ==> ValidValue(target.value))
    ensures Merged(Some(Merged(target, patch)), patch) == Merged(target, patch)
    decreases patch
  {
    if patch.Obj? {
      var out := Fields(Some(Merged(target, patch)));
      forall k | 0 <= k < |patch.members|
        ensures var m := patch.members[k]; Asked(Get(out, m.key), Some(m.val)) == Get(out, m.key)
      {
        var m := patch.members[k];
        MergeRule(target, patch, m.key);
        FoundAt(patch.members, k);
        if m.val != Leaf(Null) {
          var was := Get(Fields(target), m.key);
          assert was.Some? ==> ValidValue(was.value);
          MergeTwice(was, m.val);
        }
      }
      MergeRule(target, patch, "");
      MergeMembersStay(out, patch, 0);
    }
  }

  // ---- Nulls never arrive ----

  /** No member of an object, at any depth of objects, is null. */
  ghost predicate NoNullMembers(v: Value)
  {
    v.Obj? ==> forall i :: 0 <= i < |v.members| ==> v.members[i].val != Leaf(Null) && NoNullMembers(v.members[i].val)
  }

  lemma WithNoNulls(ms: seq<Member>, key: string, v: Value)
    requires NoNullMembers(Obj(ms)) && v != Leaf(Null) && NoNullMembers(v)
    ensures NoNullMembers(Obj(With(ms, key, v)))
  {
    hide FindMember;
    var r := With(ms, key, v);
    forall k | 0 <= k < |r| ensures r[k].val != Leaf(Null) && NoNullMembers(r[k].val) {
      assert r[k] == Member(key, v) || (k < |ms| && r[k] == Obj(ms).members[k]);
    }
  }

  lemma WithoutNoNulls(ms: seq<Member>, key: string)
    requires NoNullMembers(Obj(ms))
    ensures NoNullMembers(Obj(Without(ms, key)))
  {
    hide FindMember;
    var r, i := Without(ms, key), FindMember(ms, key);
    forall k | 0 <= k < |r| ensures r[k].val != Leaf(Null) && NoNullMembers(r[k].val) {
      assert r[k] == Obj(ms).members[if i < 0 || k < i then k else k + 1];
    }
  }

  lemma {:induction false} MergeMembersNoNulls(out: seq<Member>, patch: Value, i: nat)
    requires patch.Obj? && i <= |patch.members| && NoNullMembers(Obj(out))
    ensures NoNullMembers(Obj(MergeMembers(out, patch, i)))
    decreases patch, |patch.members| - i
  {
    if i < |patch.members| {
      var m := patch.members[i];
      var next := if m.val == Leaf(Null) then Without(out, m.key) else With(out, m.key, Merged(Get(out, m.key), m.val));
      if m.val != Leaf(Null) {
        MergedNoNulls(Get(out, m.key), m.val);
      }
      assert NoNullMembers(Obj(next)) by {
        if m.val != Leaf(Null) {
          WithNoNulls(out, m.key, Merged(Get(out, m.key), m.val));
        } else {
          WithoutNoNulls(out, m.key);
        }
      }
      MergeMembersNoNulls(next, patch, i + 1);
    }
  }

  /** Whatever nulls a patch carries, they delete: an object free of null members stays so. */
  lemma {:induction false} MergedNoNulls(target: Option<Value>, patch: Value)
    requires target.Some? ==> NoNullMembers(target.value)
    ensures NoNullMembers(Merged(target, patch))
    decreases patch, if patch.Obj? then |patch.members| + 1 else 0
  {
    if patch.Obj? {
      MergeMembersNoNulls(Fields(target), patch, 0);
    }
  }
}
