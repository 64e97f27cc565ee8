/**
 * The JSON documents the converter reads and writes, and the deep copy
 * `ConvertJsonElement` that turns a parsed element into plain dictionaries,
 * arrays and scalars.
 *
 * An object is an ordered list of members. A parsed document may repeat a
 * name; the dictionaries the converter builds never do, because assigning
 * through the indexer of a `Dictionary<string, object>` replaces the value
 * of a name already present (keeping its position) and appends a new name
 * at the end.
 */
module Json {
  import opened Wrappers
  import Numerals

  /** A JSON number: an integer, or any other numeral (a fraction or an
      exponent form) kept as its text. */
  datatype Number = Integer(value: int) | Real(literal: string)

  datatype Value =
    | Null
    | Bool(b: bool)
    | Num(n: Number)
    | Str(s: string)
    | Arr(items: seq<Value>)
    | Obj(members: seq<Member>)

  datatype Member = Member(name: string, value: Value)

  /** The names of an object's members. */
  function Names(d: seq<Member>): set<string> {
    set i | 0 <= i < |d| :: d[i].name
  }

  /** No name occurs twice. */
  predicate Distinct(d: seq<Member>) {
    forall i, j :: 0 <= i < j < |d| ==> d[i].name != d[j].name
  }

  /** Position of the first member called `name`, or -1. */
  function IndexOfName(d: seq<Member>, name: string): (i: int)
    ensures -1 <= i < |d|
    ensures i >= 0 ==> d[i].name == name
    ensures forall k :: 0 <= k < |d| && (i < 0 || k < i) ==> d[k].name != name
  {
    if d == [] then -1
    else if d[0].name == name then 0
    else
      var i := IndexOfName(d[1..], name);
      if i < 0 then -1 else i + 1
  }

  /** Position of the last member called `name`, or -1. */
  function LastIndexOfName(d: seq<Member>, name: string): (i: int)
    ensures -1 <= i < |d|
    ensures i >= 0 ==> d[i].name == name
    ensures forall k :: i < k < |d| ==> d[k].name != name
  {
    if d == [] then -1
    else if d[|d| - 1].name == name then |d| - 1
    else LastIndexOfName(d[..|d| - 1], name)
  }

  /** `dict.ContainsKey(name)`. */
  predicate HasKey(d: seq<Member>, name: string) {
    IndexOfName(d, name) >= 0
  }

  /** `dict[name]` read through `TryGetValue`: the value of the first member
      with that name. */
  function Lookup(d: seq<Member>, name: string): (r: Option<Value>)
    ensures r.Some? <==> name in Names(d)
  {
    var i := IndexOfName(d, name);
    if i < 0 then None else Some(d[i].value)
  }

  /** The value a document's reader keeps for `name`: its last occurrence. */
  function LastLookup(d: seq<Member>, name: string): (r: Option<Value>)
    ensures r.Some? <==> name in Names(d)
  {
    var i := LastIndexOfName(d, name);
    if i < 0 then None else Some(d[i].value)
  }

  /** `dict[name] = v`: replace the value in place, or append. */
  function Store(d: seq<Member>, name: string, v: Value): (r: seq<Member>)
    ensures Names(r) == Names(d) + {name}
    ensures Distinct(d) ==> Distinct(r)
    ensures forall k :: Lookup(r, k) == if k == name then Some(v) else Lookup(d, k)
  {
    var i := IndexOfName(d, name);
    if i < 0 then
      StoreAppends(d, Member(name, v));
      d + [Member(name, v)]
    else
      StoreReplaces(d, i, name, v);
      d[i := Member(name, v)]
  }

  /** Appending a member under a fresh name. */
  lemma StoreAppends(d: seq<Member>, m: Member)
    requires IndexOfName(d, m.name) < 0
    ensures Names(d + [m]) == Names(d) + {m.name}
    ensures Distinct(d) ==> Distinct(d + [m])
    ensures forall k :: Lookup(d + [m], k) == if k == m.name then Some(m.value) else Lookup(d, k)
  {
    var r := d + [m];
    assert forall k :: 0 <= k < |d| ==> r[k] == d[k];
    assert forall k :: k != m.name ==> IndexOfName(r, k) == IndexOfName(d, k) by {
      forall k | k != m.name ensures IndexOfName(r, k) == IndexOfName(d, k) {
        IndexOfNameAppend(d, m, k);
      }
    }
    assert Names(r) == Names(d) + {m.name} by {
      assert r[|d|].name == m.name;
    }
  }

  /** Replacing the value of the first member called `name`, at `i`. */
  lemma StoreReplaces(d: seq<Member>, i: int, name: string, v: Value)
    requires 0 <= i < |d| && i == IndexOfName(d, name)
    ensures Names(d[i := Member(name, v)]) == Names(d) + {name}
    ensures Distinct(d) ==> Distinct(d[i := Member(name, v)])
    ensures forall k :: Lookup(d[i := Member(name, v)], k) == if k == name then Some(v) else Lookup(d, k)
  {
    var r := d[i := Member(name, v)];
    assert forall k :: 0 <= k < |d| ==> r[k].name == d[k].name;
    assert forall k :: IndexOfName(r, k) == IndexOfName(d, k) by {
      forall k ensures IndexOfName(r, k) == IndexOfName(d, k) {
        IndexOfNameSameNames(r, d, k);
      }
    }
    forall k ensures Lookup(r, k) == if k == name then Some(v) else Lookup(d, k) {
      var j := IndexOfName(d, k);
      assert j >= 0 && k != name ==> j != i && r[j] == d[j];
    }
  }

  lemma {:induction false} IndexOfNameSameNames(a: seq<Member>, b: seq<Member>, name: string)
    requires |a| == |b|
    requires forall k :: 0 <= k < |a| ==> a[k].name == b[k].name
    ensures IndexOfName(a, name) == IndexOfName(b, name)
  {
    if a != [] && a[0].name != name {
      IndexOfNameSameNames(a[1..], b[1..], name);
    }
  }

  lemma IndexOfNameAppend(d: seq<Member>, m: Member, k: string)
    requires k != m.name
    ensures IndexOfName(d + [m], k) == IndexOfName(d, k)
  {
    var r := d + [m];
    var i := IndexOfName(r, k);
    var j := IndexOfName(d, k);
    assert forall x :: 0 <= x < |d| ==> r[x] == d[x];
    if j >= 0 {
      assert r[j].name == k;
    }
  }

  /** The dictionary built by assigning every member in order. */
  function Collect(ms: seq<Member>): (d: seq<Member>)
    ensures Distinct(d)
    ensures Names(d) == Names(ms)
  {
    if ms == [] then []
    else
      var front := ms[..|ms| - 1];
      assert Names(ms) == Names(front) + {ms[|ms| - 1].name} by {
        assert forall k :: 0 <= k < |front| ==> front[k] == ms[k];
      }
      Store(Collect(front), ms[|ms| - 1].name, ms[|ms| - 1].value)
  }

  /** Collecting keeps, for every name, the value of its last occurrence. */
  lemma {:induction false} CollectKeepsLast(ms: seq<Member>, name: string)
    ensures Lookup(Collect(ms), name) == LastLookup(ms, name)
  {
    if ms != [] {
      var front := ms[..|ms| - 1];
      CollectKeepsLast(front, name);
      if ms[|ms| - 1].name != name {
        var i := LastIndexOfName(front, name);
        assert LastIndexOfName(ms, name) == i;
      }
    }
  }

  /** A member list with distinct names is already a dictionary. */
  lemma {:induction false} CollectDistinct(ms: seq<Member>)
    requires Distinct(ms)
    ensures Collect(ms) == ms
  {
    if ms != [] {
      var front := ms[..|ms| - 1];
      var last := ms[|ms| - 1];
      DistinctFront(ms);
      CollectDistinct(front);
      StoreFresh(front, last);
      assert front + [last] == ms;
    }
  }

  lemma DistinctFront(ms: seq<Member>)
    requires ms != [] && Distinct(ms)
    ensures Distinct(ms[..|ms| - 1])
    ensures ms[|ms| - 1].name !in Names(ms[..|ms| - 1])
  {
    var front := ms[..|ms| - 1];
    assert forall k :: 0 <= k < |front| ==> front[k] == ms[k];
  }

  lemma StoreFresh(d: seq<Member>, m: Member)
    requires m.name !in Names(d)
    ensures Store(d, m.name, m.value) == d + [m]
  {
    assert IndexOfName(d, m.name) < 0;
  }

  /** .NET `int`. */
  predicate InInt32(x: int) {
    -0x8000_0000 <= x < 0x8000_0000
  }

  /** A number element becomes an `int` when `TryGetInt32` accepts it, and a
      `double` otherwise. */
  function ConvertedNumber(n: Number): (r: Number)
    ensures r.Integer? <==> n.Integer? && InInt32(n.value)
    ensures r.Integer? ==> r == n
  {
    match n
    case Integer(x) => if InInt32(x) then n else Real(Numerals.IntText(x))
    case Real(_) => n
  }

  /** What `ConvertJsonElement` returns, as a function of the element. */
  function Converted(v: Value): (r: Value)
    ensures r.Obj? <==> v.Obj?
    ensures r.Arr? <==> v.Arr?
    ensures v.Obj? ==> Names(r.members) == Names(v.members)
    ensures v.Arr? ==> |r.items| == |v.items|
  {
    match v
    case Obj(ms) =>
      var cs := seq(|ms|, i requires 0 <= i < |ms| => Member(ms[i].name, Converted(ms[i].value)));
      assert Names(cs) == Names(ms) by {
        assert forall k :: 0 <= k < |ms| ==> cs[k].name == ms[k].name;
      }
      Obj(Collect(cs))
    case Arr(items) =>
      Arr(seq(|items|, i requires 0 <= i < |items| => Converted(items[i])))
    case Num(n) => Num(ConvertedNumber(n))
    case _ => v
  }

  /** The shape of every converted value: objects have distinct names, numbers
      that are integers fit in an `int`. */
  predicate Normal(v: Value) {
    match v
    case Obj(ms) => Distinct(ms) && forall i :: 0 <= i < |ms| ==> Normal(ms[i].value)
    case Arr(items) => forall i :: 0 <= i < |items| ==> Normal(items[i])
    case Num(n) => n.Integer? ==> InInt32(n.value)
    case _ => true
  }

  /** Every value a dictionary keeps is one of the values assigned to it. */
  lemma CollectValues(ms: seq<Member>, P: Value -> bool)
    requires forall i :: 0 <= i < |ms| ==> P(ms[i].value)
    ensures forall i :: 0 <= i < |Collect(ms)| ==> P(Collect(ms)[i].value)
  {
    if ms != [] {
      var front := ms[..|ms| - 1];
      CollectValues(front, P);
      var d := Collect(front);
      var i := IndexOfName(d, ms[|ms| - 1].name);
    }
  }

  /** Every converted value is normal. */
  lemma {:induction false} ConvertedIsNormal(v: Value)
    ensures Normal(Converted(v))
  {
    match v
    case Obj(ms) =>
      var cs := seq(|ms|, i requires 0 <= i < |ms| => Member(ms[i].name, Converted(ms[i].value)));
      forall i | 0 <= i < |ms| ensures Normal(cs[i].value) {
        ConvertedIsNormal(ms[i].value);
      }
      CollectValues(cs, Normal);
    case Arr(items) =>
      forall i | 0 <= i < |items| ensures Normal(Converted(items[i])) {
        ConvertedIsNormal(items[i]);
      }
    case _ =>
  }

  /** The deep copy changes nothing in a normal value. */
  lemma {:induction false} ConvertedNormalIsIdentity(v: Value)
    requires Normal(v)
    ensures Converted(v) == v
  {
    match v
    case Obj(ms) =>
      var cs := seq(|ms|, i requires 0 <= i < |ms| => Member(ms[i].name, Converted(ms[i].value)));
      forall i | 0 <= i < |ms| ensures cs[i] == ms[i] {
        ConvertedNormalIsIdentity(ms[i].value);
      }
      assert cs == ms;
      CollectDistinct(ms);
    case Arr(items) =>
      forall i | 0 <= i < |items| ensures Converted(items[i]) == items[i] {
        ConvertedNormalIsIdentity(items[i]);
      }
    case _ =>
  }

  /** Converting twice is converting once. */
  lemma ConvertedIdempotent(v: Value)
    ensures Converted(Converted(v)) == Converted(v)
  {
    ConvertedIsNormal(v);
    ConvertedNormalIsIdentity(Converted(v));
  }

  /** A converted object answers every name with the converted value of that
      name's last occurrence in the element. */
  lemma ConvertedObjectLookup(ms: seq<Member>, name: string)
    ensures Lookup(Converted(Obj(ms)).members, name) ==
            match LastLookup(ms, name)
            case None => None
            case Some(x) => Some(Converted(x))
  {
    var cs := seq(|ms|, i requires 0 <= i < |ms| => Member(ms[i].name, Converted(ms[i].value)));
    assert Converted(Obj(ms)).members == Collect(cs);
    CollectKeepsLast(cs, name);
    ConvertedLastLookup(ms, cs, name);
  }

  lemma ConvertedLastLookup(ms: seq<Member>, cs: seq<Member>, name: string)
    requires |cs| == |ms|
    requires forall k :: 0 <= k < |ms| ==> cs[k] == Member(ms[k].name, Converted(ms[k].value))
    ensures LastLookup(cs, name) ==
            match LastLookup(ms, name)
            case None => None
            case Some(x) => Some(Converted(x))
  {
    var i := LastIndexOfName(ms, name);
    assert LastIndexOfName(cs, name) == i by {
      LastIndexOfNameSameNames(cs, ms, name);
    }
  }

  lemma {:induction false} LastIndexOfNameSameNames(a: seq<Member>, b: seq<Member>, name: string)
    requires |a| == |b|
    requires forall k :: 0 <= k < |a| ==> a[k].name == b[k].name
    ensures LastIndexOfName(a, name) == LastIndexOfName(b, name)
  {
    if a != [] && a[|a| - 1].name != name {
      LastIndexOfNameSameNames(a[..|a| - 1], b[..|b| - 1], name);
    }
  }

  lemma CollectSnoc(ms: seq<Member>, i: nat)
    requires i < |ms|
    ensures Collect(ms[..i + 1]) == Store(Collect(ms[..i]), ms[i].name, ms[i].value)
  {
    assert ms[..i + 1][..i] == ms[..i];
  }

  /** `ConvertJsonElement`: the recursive copy with its loops over members and
      items. */
  method ConvertJsonElement(e: Value) returns (r: Value)
    ensures r == Converted(e)
    decreases e
  {
    match e {
      case Obj(ms) =>
        ghost var cs := seq(|ms|, i requires 0 <= i < |ms| => Member(ms[i].name, Converted(ms[i].value)));
        var d: seq<Member> := [];
        for i := 0 to |ms|
          invariant d == Collect(cs[..i])
        {
          var cv := ConvertJsonElement(ms[i].value);
          CollectSnoc(cs, i);
          assert cs[i] == Member(ms[i].name, cv);
          d := Store(d, ms[i].name, cv);
        }
        assert cs[..|ms|] == cs;
        r := Obj(d);
      case Arr(items) =>
        var list: seq<Value> := [];
        for i := 0 to |items|
          invariant |list| == i
          invariant forall k :: 0 <= k < i ==> list[k] == Converted(items[k])
        {
          var cv := ConvertJsonElement(items[i]);
          list := list + [cv];
        }
        r := Arr(list);
      case Num(n) =>
        r := Num(ConvertedNumber(n));
      case _ =>
        r := e;
    }
  }
}
