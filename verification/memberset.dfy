/** The team: members kept in insertion order, looked up by name. */
module MemberSets {
  import opened Options
  import opened Members

  type MemberSet = seq<Member>

  ghost predicate DistinctNames(ms: MemberSet) {
    forall i, j | 0 <= i < j < |ms| :: ms[i].name != ms[j].name
  }

  /** `find_by_name`: the first member with the name, or none. */
  function FindByName(ms: MemberSet, name: string): (r: Option<Member>)
    ensures r.None? <==> forall m | m in ms :: m.name != name
    ensures r.Some? ==> exists i | 0 <= i < |ms| ::
      ms[i] == r.value && r.value.name == name && forall j | 0 <= j < i :: ms[j].name != name
    decreases |ms|
  {
    if |ms| == 0 then None
    else if ms[0].name == name then Some(ms[0])
    else
      var r := FindByName(ms[1..], name);
      assert ms == [ms[0]] + ms[1..];
      FirstMatchShifts(ms, name, r);
      r
  }

  lemma FirstMatchShifts(ms: MemberSet, name: string, r: Option<Member>)
    requires |ms| > 0 && ms[0].name != name
    requires r.Some? ==> exists i | 0 <= i < |ms[1..]| ::
      ms[1..][i] == r.value && r.value.name == name && forall j | 0 <= j < i :: ms[1..][j].name != name
    ensures r.Some? ==> exists i | 0 <= i < |ms| ::
      ms[i] == r.value && r.value.name == name && forall j | 0 <= j < i :: ms[j].name != name
  {
    if r.Some? {
      var i :| 0 <= i < |ms[1..]| && ms[1..][i] == r.value && r.value.name == name
        && forall j | 0 <= j < i :: ms[1..][j].name != name;
      assert ms[i + 1] == r.value;
      forall j | 0 <= j < i + 1 ensures ms[j].name != name {
        if j > 0 { assert ms[j] == ms[1..][j - 1]; }
      }
    }
  }

  /** `add` keeps names distinct. */
  lemma AddKeepsNamesDistinct(ms: MemberSet, m: Member)
    requires DistinctNames(ms)
    ensures DistinctNames(Add(ms, m))
  {
    var r := Add(ms, m);
    if |r| == |ms| + 1 {
      forall i | 0 <= i < |ms| ensures ms[i].name != m.name {
        assert ms[i] in ms;
      }
    }
  }

  /** `add`: a member whose name is already present is ignored; otherwise
      it is appended. */
  function Add(ms: MemberSet, m: Member): (r: MemberSet)
    ensures |ms| <= |r| <= |ms| + 1
    ensures r[..|ms|] == ms
    ensures |r| == |ms| + 1 <==> FindByName(ms, m.name).None?
    ensures |r| == |ms| + 1 ==> r[|ms|] == m
    ensures FindByName(r, m.name).Some?
  {
    if FindByName(ms, m.name).Some? then ms
    else
      assert m in ms + [m];
      ms + [m]
  }

  /** A name that can be found is still found after an `add`. */
  lemma AddKeepsFound(ms: MemberSet, m: Member, name: string)
    requires FindByName(ms, name).Some?
    ensures FindByName(Add(ms, m), name).Some?
  {
    var r := Add(ms, m);
    var u :| u in ms && u.name == name;
    var k :| 0 <= k < |ms| && ms[k] == u;
    assert r[k] == u;
  }

  /** The team obtained by adding `members` one by one to an empty set:
      names are distinct, and every added name can be found. */
  function FromAdds(members: seq<Member>): (r: MemberSet)
    ensures DistinctNames(r)
    ensures forall m | m in members :: FindByName(r, m.name).Some?
    decreases |members|
  {
    if |members| == 0 then []
    else
      var prev := FromAdds(members[..|members| - 1]);
      var last := members[|members| - 1];
      var r := Add(prev, last);
      assert members == members[..|members| - 1] + [last];
      forall m | m in members ensures FindByName(r, m.name).Some? {
        if m != last {
          assert m in members[..|members| - 1];
          AddKeepsFound(prev, last, m.name);
        }
      }
      AddKeepsNamesDistinct(prev, last);
      r
  }

  /** `names`: the member names in insertion order. */
  function Names(ms: MemberSet): (r: seq<string>)
    ensures |r| == |ms|
    ensures forall i | 0 <= i < |ms| :: r[i] == ms[i].name
  {
    seq(|ms|, i requires 0 <= i < |ms| => ms[i].name)
  }

  /** Adding a new member appends exactly its name to the name list;
      adding a known name leaves the list as it was. */
  lemma AddAppendsName(ms: MemberSet, m: Member)
    ensures FindByName(ms, m.name).None? ==> Names(Add(ms, m)) == Names(ms) + [m.name]
    ensures FindByName(ms, m.name).Some? ==> Names(Add(ms, m)) == Names(ms)
  {
  }
}
