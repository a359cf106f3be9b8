/**
 * The header bag of requests and responses. The source stores headers in a plain
 * JavaScript object: assigning to a key that is present replaces its value where it
 * stands, assigning to a new key appends it, and enumeration follows first insertion.
 * Here that object is a sequence of (name, value) pairs.
 */
module HeaderTable {
  import opened Wrappers

  /** One header: its name exactly as stored (case-sensitive) and its value. */
  type Header = (string, string)

  type Headers = seq<Header>

  /** No name occurs twice, as for the keys of an object. */
  predicate UniqueNames(h: Headers)
  {
    forall i, j :: 0 <= i < j < |h| ==> h[i].0 != h[j].0
  }

  /** Whether `name` is a key of `h`. */
  predicate HasName(h: Headers, name: string)
  {
    exists i :: 0 <= i < |h| && h[i].0 == name
  }

  /** `h[name]`: the value stored under `name`, if any (the first such entry). */
  function Lookup(h: Headers, name: string): (r: Option<string>)
    ensures r.Some? <==> HasName(h, name)
    ensures r.Some? ==> r.value == h[IndexOfName(h, name)].1
    ensures UniqueNames(h) ==> forall i :: 0 <= i < |h| && h[i].0 == name ==> r == Some(h[i].1)
  {
    if |h| == 0 then None
    else if h[0].0 == name then Some(h[0].1)
    else
      HasNameTail(h, name);
      Lookup(h[1..], name)
  }

  /** The position of the first entry named `name`. */
  function IndexOfName(h: Headers, name: string): (i: nat)
    requires HasName(h, name)
    ensures i < |h| && h[i].0 == name
    ensures forall k :: 0 <= k < i ==> h[k].0 != name
  {
    if h[0].0 == name then 0
    else
      HasNameTail(h, name);
      1 + IndexOfName(h[1..], name)
  }

  /** Past a first entry with another name, `name` is present in the tail iff in the whole. */
  lemma HasNameTail(h: Headers, name: string)
    requires |h| > 0 && h[0].0 != name
    ensures HasName(h, name) <==> HasName(h[1..], name)
  {
    if HasName(h, name) {
      var j :| 0 <= j < |h| && h[j].0 == name;
      assert h[1..][j - 1] == h[j];
    }
    if HasName(h[1..], name) {
      var j :| 0 <= j < |h[1..]| && h[1..][j].0 == name;
      assert h[j + 1].0 == name;
    }
  }

  /** A unique table is its first entry in front of a unique tail that lacks that name. */
  lemma UniqueCons(x: Header, t: Headers)
    ensures UniqueNames([x] + t) <==> UniqueNames(t) && !HasName(t, x.0)
  {
    var h := [x] + t;
    assert h[1..] == t;
    if UniqueNames(h) {
      forall i, j | 0 <= i < j < |t| ensures t[i].0 != t[j].0 {
        assert t[i] == h[i + 1] && t[j] == h[j + 1];
      }
      forall j | 0 <= j < |t| ensures t[j].0 != x.0 {
        assert h[0] == x && t[j] == h[j + 1];
        assert h[0].0 != h[j + 1].0;
      }
    }
    if UniqueNames(t) && !HasName(t, x.0) {
      forall i, j | 0 <= i < j < |h| ensures h[i].0 != h[j].0 {
        if i > 0 { assert h[i] == t[i - 1] && h[j] == t[j - 1]; }
        else { assert h[j] == t[j - 1]; }
      }
    }
  }

  /**
   * `h[name] = value` on an object: afterwards `name` maps to `value` and every other
   * name to what it mapped to before; an existing entry is replaced in its place,
   * a new one is appended, and uniqueness of names is kept.
   */
  function Put(h: Headers, name: string, value: string): (r: Headers)
    ensures Lookup(r, name) == Some(value)
    ensures forall n :: n != name ==> Lookup(r, n) == Lookup(h, n)
    ensures UniqueNames(h) ==> UniqueNames(r)
    ensures HasName(h, name) ==> Replaced(h, r, name)
    ensures !HasName(h, name) ==> r == h + [(name, value)]
  {
    if |h| == 0 then [(name, value)]
    else if h[0].0 == name then
      UniqueCons(h[0], h[1..]);
      UniqueCons((name, value), h[1..]);
      assert [h[0]] + h[1..] == h;
      [(name, value)] + h[1..]
    else
      var t := Put(h[1..], name, value);
      PutStep(h, name, value, t);
      [h[0]] + t
  }

  /** `r` is `h` with the entries named `name` possibly changed in value, nothing else. */
  predicate Replaced(h: Headers, r: Headers, name: string)
  {
    && |r| == |h|
    && (forall i :: 0 <= i < |h| ==> r[i].0 == h[i].0)
    && (forall i :: 0 <= i < |h| && h[i].0 != name ==> r[i] == h[i])
  }

  /** Putting into the tail of a table whose head has another name puts into the table. */
  lemma PutStep(h: Headers, name: string, value: string, t: Headers)
    requires |h| > 0 && h[0].0 != name
    requires Lookup(t, name) == Some(value)
    requires forall n :: n != name ==> Lookup(t, n) == Lookup(h[1..], n)
    requires UniqueNames(h[1..]) ==> UniqueNames(t)
    requires HasName(h[1..], name) ==> Replaced(h[1..], t, name)
    requires !HasName(h[1..], name) ==> t == h[1..] + [(name, value)]
    ensures Lookup([h[0]] + t, name) == Some(value)
    ensures forall n :: n != name ==> Lookup([h[0]] + t, n) == Lookup(h, n)
    ensures UniqueNames(h) ==> UniqueNames([h[0]] + t)
    ensures HasName(h, name) ==> Replaced(h, [h[0]] + t, name)
    ensures !HasName(h, name) ==> [h[0]] + t == h + [(name, value)]
  {
    PutStepLookups(h, name, value, t);
    if UniqueNames(h) {
      PutStepUnique(h, name, t);
    }
    PutStepShape(h, name, value, t);
  }

  /** The lookups after putting into the tail, seen from the whole table. */
  lemma PutStepLookups(h: Headers, name: string, value: string, t: Headers)
    requires |h| > 0 && h[0].0 != name
    requires Lookup(t, name) == Some(value)
    requires forall n :: n != name ==> Lookup(t, n) == Lookup(h[1..], n)
    ensures Lookup([h[0]] + t, name) == Some(value)
    ensures forall n :: n != name ==> Lookup([h[0]] + t, n) == Lookup(h, n)
  {
    var r := [h[0]] + t;
    assert r[1..] == t;
    forall n | n != name ensures Lookup(r, n) == Lookup(h, n) {
      ConsLookup(h, t, n);
    }
  }

  /** Where the put landed, seen from the whole table. */
  lemma PutStepShape(h: Headers, name: string, value: string, t: Headers)
    requires |h| > 0 && h[0].0 != name
    requires HasName(h[1..], name) ==> Replaced(h[1..], t, name)
    requires !HasName(h[1..], name) ==> t == h[1..] + [(name, value)]
    ensures HasName(h, name) ==> Replaced(h, [h[0]] + t, name)
    ensures !HasName(h, name) ==> [h[0]] + t == h + [(name, value)]
  {
    HasNameTail(h, name);
    if HasName(h, name) {
      ConsReplaced(h, t, name);
    } else {
      assert [h[0]] + h[1..] == h;
      assert [h[0]] + t == ([h[0]] + h[1..]) + [(name, value)];
    }
  }

  /** Lookups agree on `h` and on its head in front of `t` when `t` agrees with its tail. */
  lemma ConsLookup(h: Headers, t: Headers, n: string)
    requires |h| > 0
    requires n != h[0].0 ==> Lookup(t, n) == Lookup(h[1..], n)
    ensures Lookup([h[0]] + t, n) == Lookup(h, n)
  {
    var r := [h[0]] + t;
    assert r[1..] == t;
    if n != h[0].0 {
      HasNameTail(h, n);
      HasNameTail(r, n);
    }
  }

  /** Uniqueness survives when the tail keeps its uniqueness and gains only `name`. */
  lemma PutStepUnique(h: Headers, name: string, t: Headers)
    requires |h| > 0 && h[0].0 != name && UniqueNames(h)
    requires UniqueNames(h[1..]) ==> UniqueNames(t)
    requires Lookup(t, h[0].0) == Lookup(h[1..], h[0].0)
    ensures UniqueNames([h[0]] + t)
  {
    assert [h[0]] + h[1..] == h;
    UniqueCons(h[0], h[1..]);
    UniqueCons(h[0], t);
  }

  /** The head in front of a replaced tail is a replaced table. */
  lemma ConsReplaced(h: Headers, t: Headers, name: string)
    requires |h| > 0 && h[0].0 != name
    requires Replaced(h[1..], t, name)
    ensures Replaced(h, [h[0]] + t, name)
  {
    var r := [h[0]] + t;
    forall i | 0 <= i < |h| ensures r[i].0 == h[i].0 && (h[i].0 != name ==> r[i] == h[i]) {
      if i > 0 { assert r[i] == t[i - 1] && h[i] == h[1..][i - 1]; }
    }
  }

  // ---------------------------------------------------------------------------
  // Assigning a sequence of entries in order, some of them absent.

  /** The table after assigning each present entry of `es` in order into an empty object. */
  function AssignAll(es: seq<Option<Header>>): Headers
  {
    if |es| == 0 then []
    else
      var h := AssignAll(es[..|es| - 1]);
      match es[|es| - 1]
      case None => h
      case Some(e) => Put(h, e.0, e.1)
  }

  /** Entry `e` is present and assigns name `n`. */
  predicate Assigns(e: Option<Header>, n: string)
  {
    e.Some? && e.value.0 == n
  }

  /** Entry `i` is the last of `es` that assigns `n`. */
  predicate LastAssigns(es: seq<Option<Header>>, i: int, n: string)
  {
    && 0 <= i < |es|
    && Assigns(es[i], n)
    && forall j :: i < j < |es| ==> !Assigns(es[j], n)
  }

  /** Some entry assigns `x` before any entry assigns `y`. */
  predicate AssignedBefore(es: seq<Option<Header>>, x: string, y: string)
  {
    exists i :: 0 <= i < |es| && Assigns(es[i], x) &&
      forall j :: 0 <= j <= i ==> !Assigns(es[j], y)
  }

  /** What the last entry does to the lookup of one name. */
  lemma AssignAllStep(es: seq<Option<Header>>, n: string)
    requires |es| > 0
    ensures var k := |es| - 1;
      Lookup(AssignAll(es), n) ==
        if Assigns(es[k], n) then Some(es[k].value.1) else Lookup(AssignAll(es[..k]), n)
  {
  }

  /** Assigning keeps names unique. */
  lemma {:induction false} AssignAllUnique(es: seq<Option<Header>>)
    ensures UniqueNames(AssignAll(es))
  {
    if |es| > 0 {
      AssignAllUnique(es[..|es| - 1]);
    }
  }

  /** A name is in the table exactly when some entry assigns it. */
  lemma AssignAllNames(es: seq<Option<Header>>, n: string)
    ensures HasName(AssignAll(es), n) <==> exists i :: 0 <= i < |es| && Assigns(es[i], n)
  {
    AssignAllLookup(es, n);
    LastValueSome(es, n);
  }

  /** There is a last value exactly when some entry assigns the name. */
  lemma {:induction false} LastValueSome(es: seq<Option<Header>>, n: string)
    ensures LastValue(es, n).Some? <==> exists i :: 0 <= i < |es| && Assigns(es[i], n)
  {
    if |es| > 0 {
      var k := |es| - 1;
      var init := es[..k];
      LastValueSome(init, n);
      if exists i :: 0 <= i < |es| && Assigns(es[i], n) {
        var i :| 0 <= i < |es| && Assigns(es[i], n);
        if i < k {
          assert init[i] == es[i];
        }
      }
      if exists i :: 0 <= i < |init| && Assigns(init[i], n) {
        var i :| 0 <= i < |init| && Assigns(init[i], n);
        assert es[i] == init[i];
      }
    }
  }

  /** The value of the last entry of `es` that assigns `n`, if any entry does. */
  function LastValue(es: seq<Option<Header>>, n: string): Option<string>
  {
    if |es| == 0 then None
    else if Assigns(es[|es| - 1], n) then Some(es[|es| - 1].value.1)
    else LastValue(es[..|es| - 1], n)
  }

  /** Looking a name up in the assigned table finds the last value assigned to it. */
  lemma {:induction false} AssignAllLookup(es: seq<Option<Header>>, n: string)
    ensures Lookup(AssignAll(es), n) == LastValue(es, n)
  {
    if |es| > 0 {
      AssignAllStep(es, n);
      AssignAllLookup(es[..|es| - 1], n);
    }
  }

  /** The last value is the value of the last assigning entry. */
  lemma {:induction false} LastValueOf(es: seq<Option<Header>>, i: int, n: string)
    requires LastAssigns(es, i, n)
    ensures LastValue(es, n) == Some(es[i].value.1)
  {
    var k := |es| - 1;
    if i < k {
      var init := es[..k];
      assert LastAssigns(init, i, n) by {
        forall j | i < j < |init| ensures !Assigns(init[j], n) {
          assert init[j] == es[j];
        }
      }
      LastValueOf(init, i, n);
    }
  }

  /** A name maps to the value of the last entry that assigns it. */
  lemma AssignAllLastWins(es: seq<Option<Header>>, i: int, n: string)
    requires LastAssigns(es, i, n)
    ensures Lookup(AssignAll(es), n) == Some(es[i].value.1)
  {
    AssignAllLookup(es, n);
    LastValueOf(es, i, n);
  }

  /** The table enumerates names in the order in which they were first assigned. */
  lemma {:induction false} AssignAllOrder(es: seq<Option<Header>>, a: int, b: int)
    requires 0 <= a < b < |AssignAll(es)|
    ensures AssignedBefore(es, AssignAll(es)[a].0, AssignAll(es)[b].0)
  {
    var k := |es| - 1;
    var init := es[..k];
    var h0 := AssignAll(init);
    var h := AssignAll(es);
    if es[k].Some? && !HasName(h0, es[k].value.0) && b == |h0| {
      var y := es[k].value.0;
      assert h == h0 + [es[k].value];
      assert h[a] == h0[a] && h[b].0 == y;
      assert HasName(h0, h0[a].0);
      AssignAllNames(init, h0[a].0);
      AssignAllNames(init, y);
      AssignedBeforeNew(es, init, h0[a].0, y);
    } else {
      assert b < |h0| && h[a].0 == h0[a].0 && h[b].0 == h0[b].0;
      AssignAllOrder(init, a, b);
      AssignedBeforeExtend(es, h0[a].0, h0[b].0);
    }
  }

  /** If the entries before the last assign `x` but not `y`, then `x` is assigned before `y`. */
  lemma AssignedBeforeNew(es: seq<Option<Header>>, init: seq<Option<Header>>, x: string, y: string)
    requires |es| > 0 && init == es[..|es| - 1]
    requires exists i :: 0 <= i < |init| && Assigns(init[i], x)
    requires forall i :: 0 <= i < |init| ==> !Assigns(init[i], y)
    ensures AssignedBefore(es, x, y)
  {
    var i :| 0 <= i < |init| && Assigns(init[i], x);
    assert es[i] == init[i];
    forall j | 0 <= j <= i ensures !Assigns(es[j], y) {
      assert es[j] == init[j];
    }
  }

  /** An order established on the entries before the last holds for all the entries. */
  lemma AssignedBeforeExtend(es: seq<Option<Header>>, x: string, y: string)
    requires |es| > 0
    requires AssignedBefore(es[..|es| - 1], x, y)
    ensures AssignedBefore(es, x, y)
  {
    var init := es[..|es| - 1];
    var i :| 0 <= i < |init| && Assigns(init[i], x) &&
      forall j :: 0 <= j <= i ==> !Assigns(init[j], y);
    assert es[i] == init[i];
    forall j | 0 <= j <= i ensures !Assigns(es[j], y) {
      assert es[j] == init[j];
    }
  }
}
