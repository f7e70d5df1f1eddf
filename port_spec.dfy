/**
 * Parsing of the positional arguments `src[:dst]` into source/target port pairs
 * (the `flatMap`/`filter` chain at the start of `main`).
 */
module PortSpecs {
  import opened Wrappers
  import opened JsText

  /** One surviving positional argument: listen on `source`, forward to `target`. */
  datatype PortSpec = PortSpec(source: int, target: int)

  /**
   * One positional argument: split on ':', convert every part with `+p.trim()`, take the first
   * part as the source and the second (defaulting to the source) as the target; drop the item
   * when either is falsy. The explicit `trim()` is left out: `ToNumber` trims its operand itself,
   * and trimming twice changes nothing (`ToNumberOfTrimmed`).
   */
  function ParseItem(item: string): (r: Option<PortSpec>)
    ensures r.Some? ==> r.value.source != 0 && r.value.target != 0
  {
    var parts := Split(item);
    var source := ToNumber(parts[0]);
    var target := if |parts| >= 2 then ToNumber(parts[1]) else source;
    if !Truthy(source) || !Truthy(target) then None
    else Some(PortSpec(source.value, target.value))
  }

  /** What `flatMap` followed by `filter` keeps of one item. */
  function Kept(item: string): (r: seq<PortSpec>)
    ensures |r| <= 1
    ensures forall p :: p in r <==> ParseItem(item) == Some(p)
  {
    match ParseItem(item)
    case Some(p) => [p]
    case None => []
  }

  /** All positional arguments, in order, keeping the items that parse. */
  function ParsePorts(items: seq<string>): (ports: seq<PortSpec>)
    ensures |ports| <= |items|
    ensures forall i | 0 <= i < |ports| :: ports[i].source != 0 && ports[i].target != 0
  {
    if |items| == 0 then []
    else
      var head := Kept(items[0]);
      assert forall p | p in head :: p.source != 0 && p.target != 0;
      head + ParsePorts(items[1..])
  }

  /** An item without a colon forwards its port to the same port. */
  lemma ParseWithoutColon(item: string)
    requires ':' !in item
    ensures ParseItem(item) ==
      (if Truthy(ToNumber(item)) then Some(PortSpec(ToNumber(item).value, ToNumber(item).value)) else None)
  {
    SplitNoColon(item);
  }

  /** An item `a:b` is the pair of the two converted parts, dropped when either part is falsy. */
  lemma ParseTwoParts(a: string, b: string)
    requires ':' !in a && ':' !in b
    ensures ParseItem(a + ":" + b) ==
      (if Truthy(ToNumber(a)) && Truthy(ToNumber(b))
       then Some(PortSpec(ToNumber(a).value, ToNumber(b).value)) else None)
  {
    SplitAtColon(a, b);
    SplitNoColon(b);
  }

  /** Parts after the second are ignored. */
  lemma ParseIgnoresExtraParts(a: string, b: string, rest: string)
    requires ':' !in a && ':' !in b
    ensures ParseItem(a + ":" + b + ":" + rest) == ParseItem(a + ":" + b)
  {
    assert a + ":" + b + ":" + rest == a + ":" + (b + ":" + rest);
    SplitAtColon(a, b + ":" + rest);
    SplitAtColon(b, rest);
    assert Split(a + ":" + b + ":" + rest) == [a, b] + Split(rest);
    SplitAtColon(a, b);
    SplitNoColon(b);
    assert Split(a + ":" + b) == [a, b];
  }

  /** An empty target part (as in `8080:`) converts to 0, so the item is dropped. */
  lemma ParseEmptyTargetDropped(a: string)
    requires ':' !in a
    ensures ParseItem(a + ":") == None
  {
    assert a + ":" == a + ":" + "";
    SplitAtColon(a, "");
    assert Trim("") == "";
  }

  lemma ParseEmptyTargetExample()
    ensures ParseItem("8080:") == None
  {
    assert "8080:" == "8080" + ":";
    ParseEmptyTargetDropped("8080");
  }

  /** Parsing distributes over concatenation: surviving entries keep their input order. */
  lemma {:induction false} ParsePortsAppend(xs: seq<string>, ys: seq<string>)
    ensures ParsePorts(xs + ys) == ParsePorts(xs) + ParsePorts(ys)
  {
    if |xs| == 0 {
      assert xs + ys == ys;
    } else {
      var zs := xs + ys;
      assert zs[0] == xs[0];
      assert zs[1..] == xs[1..] + ys;
      ParsePortsAppend(xs[1..], ys);
      assert ParsePorts(zs) == Kept(xs[0]) + ParsePorts(xs[1..] + ys);
    }
  }

  /** A pair survives exactly when some item parses to it. */
  lemma {:induction false} ParsePortsMembers(items: seq<string>, p: PortSpec)
    ensures p in ParsePorts(items) <==> exists i | 0 <= i < |items| :: ParseItem(items[i]) == Some(p)
  {
    if |items| > 0 {
      ParsePortsMembers(items[1..], p);
      if p in ParsePorts(items[1..]) {
        var i :| 0 <= i < |items[1..]| && ParseItem(items[1..][i]) == Some(p);
        assert ParseItem(items[i + 1]) == Some(p);
      }
      if exists i | 0 <= i < |items| :: ParseItem(items[i]) == Some(p) {
        var i :| 0 <= i < |items| && ParseItem(items[i]) == Some(p);
        if i > 0 { assert ParseItem(items[1..][i - 1]) == Some(p); }
      }
    }
  }
}
