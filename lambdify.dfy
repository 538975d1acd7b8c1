/** `lambdify()`: a polynomial turned into a function of a vector of values,
    one per positional name, with extra symbols whose values callbacks
    compute from that vector. */
module Lambdify {
  import opened Wrappers
  import opened Series
  import opened SymbolUtils
  import opened Terms
  import Calculus
  import Substitution
  import Monomial
  import IntegerMath

  /** A callback computing an extra symbol from the positional values. */
  type Callback = seq<real> -> real

  datatype Extra = Extra(name: string, f: Callback)

  /** The object `lambdify()` builds: the evaluable, the positional names in
      order, and the extra symbols with their callbacks. */
  datatype Lambdified = Lambdified(evaluable: Series, names: seq<string>, extra: map<string, Callback>)

  function ExtraNames(es: seq<Extra>): (r: seq<string>)
    ensures |r| == |es| && forall i :: 0 <= i < |es| ==> r[i] == es[i].name
  {
    seq(|es|, i requires 0 <= i < |es| => es[i].name)
  }

  /** The position of the first entry named `n`. */
  function FirstIndex(es: seq<Extra>, n: string): (i: nat)
    requires n in ExtraNames(es)
    ensures i < |es| && es[i].name == n && forall j :: 0 <= j < i ==> es[j].name != n
    decreases |es|
  {
    if es[0].name == n then 0
    else
      assert ExtraNames(es[1..]) == ExtraNames(es)[1..];
      1 + FirstIndex(es[1..], n)
  }

  /** The map built from the list of extra symbols: an entry whose name is
      already present is ignored, so the first one wins. */
  function ExtraMap(es: seq<Extra>): (m: map<string, Callback>)
    ensures forall n :: n in m <==> n in ExtraNames(es)
    decreases |es|
  {
    if es == [] then map[]
    else
      var init := es[..|es| - 1];
      var m := ExtraMap(init);
      assert ExtraNames(es) == ExtraNames(init) + [es[|es| - 1].name];
      var last := es[|es| - 1];
      if last.name in m then m else m[last.name := last.f]
  }

  /** Each extra name is bound to the callback of its first entry. */
  lemma {:induction false} ExtraMapFirstWins(es: seq<Extra>, n: string)
    requires n in ExtraNames(es)
    ensures ExtraMap(es)[n] == es[FirstIndex(es, n)].f
    decreases |es|
  {
    var init := es[..|es| - 1];
    var last := es[|es| - 1];
    assert ExtraNames(es) == ExtraNames(init) + [last.name];
    if n in ExtraNames(init) {
      ExtraMapFirstWins(init, n);
      FirstIndexPrefix(es, n);
    } else {
      assert last.name == n;
      assert FirstIndex(es, n) == |es| - 1;
    }
  }

  lemma FirstIndexPrefix(es: seq<Extra>, n: string)
    requires es != [] && n in ExtraNames(es[..|es| - 1])
    ensures n in ExtraNames(es) && FirstIndex(es, n) == FirstIndex(es[..|es| - 1], n)
  {
    var init := es[..|es| - 1];
    assert ExtraNames(es) == ExtraNames(init) + [es[|es| - 1].name];
    var i := FirstIndex(init, n);
    assert es[i] == init[i];
  }

  /** The construction checks: no positional name twice, and no extra
      symbol that is also positional; both throw `invalid_argument`. */
  function Make(s: Series, names: seq<string>, es: seq<Extra>): (r: Result<Lambdified>)
    ensures r.Err? <==> !Calculus.NoDuplicates(names) || exists i :: 0 <= i < |es| && es[i].name in names
    ensures r.Err? ==> r.error == InvalidArgument
    ensures r.Ok? ==> r.value.evaluable == s && r.value.names == names
    ensures r.Ok? ==> forall n :: n in r.value.extra <==> n in ExtraNames(es)
    ensures r.Ok? ==> forall n :: n in r.value.extra ==> n !in names
  {
    if !Calculus.NoDuplicates(names) then Err(InvalidArgument)
    else if exists i :: 0 <= i < |es| && es[i].name in names then Err(InvalidArgument)
    else Ok(Lambdified(s, names, ExtraMap(es)))
  }

  /** `get_names()`: the positional names, in order. */
  function GetNames(l: Lambdified): (r: seq<string>)
    ensures r == l.names
  {
    l.names
  }

  /** `get_extra_names()`: the names of the extra symbols, each once; the
      order of the map is unspecified. */
  function GetExtraNames(l: Lambdified): (r: set<string>)
    ensures forall n :: n in r <==> n in l.extra
  {
    l.extra.Keys
  }

  /** The assignment a call evaluates at: positional names to the given
      values, extra names to what their callbacks compute. */
  function Point(l: Lambdified, vals: seq<real>): (p: map<string, real>)
    requires |vals| == |l.names|
    ensures forall n :: n in p <==> n in l.names || n in l.extra
  {
    var pos := map n | n in l.names :: vals[SymbolIndex(l.names, n)];
    var ext := map n | n in l.extra :: l.extra[n](vals);
    pos + ext
  }

  function SymbolIndex(names: seq<string>, n: string): (i: nat)
    requires n in names
    ensures i < |names| && names[i] == n
  {
    IndexOf(names, n)
  }

  /** The call operator: the wrong number of values throws
      `invalid_argument`; otherwise the evaluable is evaluated at the
      assignment, which throws when one of its symbols has no value. */
  function Call(l: Lambdified, vals: seq<real>): (r: Result<real>)
    requires Valid(l.evaluable)
    ensures |vals| != |l.names| ==> r == Err(InvalidArgument)
    ensures |vals| == |l.names| ==>
              (r.Err? && r.error == InvalidArgument <==>
                 exists i :: 0 <= i < |l.evaluable.ss| && l.evaluable.ss[i] !in l.names && l.evaluable.ss[i] !in l.extra)
  {
    if |vals| != |l.names| then Err(InvalidArgument)
    else Substitution.Evaluate(l.evaluable, Point(l, vals))
  }

  /** The assignment gives every positional name its own value. */
  lemma PointPositional(l: Lambdified, vals: seq<real>, i: nat)
    requires |vals| == |l.names| && Calculus.NoDuplicates(l.names) && i < |l.names|
    requires forall n :: n in l.extra ==> n !in l.names
    ensures Point(l, vals)[l.names[i]] == vals[i]
  {
    var j := SymbolIndex(l.names, l.names[i]);
    assert j == i;
  }

  /** `evaluate()` reads the assignment only at the symbols of the series. */
  lemma EvaluateLocal(s: Series, p: map<string, real>, q: map<string, real>)
    requires Valid(s)
    requires forall i :: 0 <= i < |s.ss| ==> (s.ss[i] in p <==> s.ss[i] in q)
    requires forall i :: 0 <= i < |s.ss| && s.ss[i] in p ==> p[s.ss[i]] == q[s.ss[i]]
    ensures Substitution.Evaluate(s, p) == Substitution.Evaluate(s, q)
  {
    if Substitution.Defined(s.ss, p) {
      assert Substitution.Values(s.ss, p) == Substitution.Values(s.ss, q);
      assert Substitution.Singular(s, p) == Substitution.Singular(s, q);
    }
  }

  /** The value of a call is `evaluate()` at any assignment that gives each
      positional name its value and each extra symbol what its callback
      computes, and no value to the other symbols of the evaluable. */
  lemma CallIsEvaluate(l: Lambdified, vals: seq<real>, point: map<string, real>)
    requires Valid(l.evaluable) && |vals| == |l.names|
    requires Calculus.NoDuplicates(l.names) && forall n :: n in l.extra ==> n !in l.names
    requires forall i :: 0 <= i < |l.names| ==> l.names[i] in point && point[l.names[i]] == vals[i]
    requires forall n :: n in l.extra ==> n in point && point[n] == l.extra[n](vals)
    requires forall i :: 0 <= i < |l.evaluable.ss| && l.evaluable.ss[i] in point ==>
               l.evaluable.ss[i] in l.names || l.evaluable.ss[i] in l.extra
    ensures Call(l, vals) == Substitution.Evaluate(l.evaluable, point)
  {
    var p := Point(l, vals);
    forall n | n in p ensures n in point && p[n] == point[n] {
      if n in l.names {
        var i := SymbolIndex(l.names, n);
        PointPositional(l, vals, i);
      }
    }
    EvaluateLocal(l.evaluable, p, point);
  }

  // ---------------------------------------------------------------------------
  // Examples
  // ---------------------------------------------------------------------------

  /** `x + 2y + 3z` over the symbols `x, y, z`. */
  function LinearXYZ(): (s: Series)
    ensures Valid(s)
  {
    var s := Series(Integers, ["x", "y", "z"], [Term(1.0, [1, 0, 0]), Term(2.0, [0, 1, 0]), Term(3.0, [0, 0, 1])]);
    assert DistinctKeys(s.terms);
    s
  }

  /** `x + 2y + 3z` with positional names `y, z, x` at `1, 2, 3` is 11. */
  lemma CallExample()
    ensures Make(LinearXYZ(), ["y", "z", "x"], []).Ok?
    ensures Call(Make(LinearXYZ(), ["y", "z", "x"], []).value, [1.0, 2.0, 3.0]) == Ok(11.0)
  {
    var l := Make(LinearXYZ(), ["y", "z", "x"], []).value;
    var point := map["x" := 3.0, "y" := 1.0, "z" := 2.0];
    CallIsEvaluate(l, [1.0, 2.0, 3.0], point);
    Substitution.EvaluateExample();
  }

  /** A positional name given twice throws `invalid_argument`. */
  lemma DuplicateNamesExample()
    ensures Make(LinearXYZ(), ["y", "z", "x", "x"], []) == Err(InvalidArgument)
  {
    assert !Calculus.NoDuplicates(["y", "z", "x", "x"]) by {
      assert ["y", "z", "x", "x"][2] == ["y", "z", "x", "x"][3];
    }
  }

  /** `x + y + z` over the symbols `x, y, z`. */
  function SumXYZ(): (s: Series)
    ensures Valid(s)
  {
    var s := Series(Integers, ["x", "y", "z"], [Term(1.0, [1, 0, 0]), Term(1.0, [0, 1, 0]), Term(1.0, [0, 0, 1])]);
    assert DistinctKeys(s.terms);
    s
  }

  lemma SumXYZValue(point: map<string, real>)
    requires "x" in point && "y" in point && "z" in point
    ensures Substitution.Evaluate(SumXYZ(), point) == Ok(point["x"] + point["y"] + point["z"])
  {
    var a, b, c := point["x"], point["y"], point["z"];
    assert Substitution.Values(SumXYZ().ss, point) == [a, b, c];
    LinearValues(a, b, c);
  }

  lemma LinearValues(a: real, b: real, c: real)
    ensures Monomial.EvalProduct([1, 0, 0], [a, b, c]) == Ok(a)
    ensures Monomial.EvalProduct([0, 1, 0], [a, b, c]) == Ok(b)
    ensures Monomial.EvalProduct([0, 0, 1], [a, b, c]) == Ok(c)
  {
    assert [1, 0, 0][1..] == [0, 0] && [0, 1, 0][1..] == [1, 0] && [0, 0, 1][1..] == [0, 1];
    assert [a, b, c][1..] == [b, c];
    LinearValuesTwo(b, c);
    assert IntegerMath.RatPow(a, 1) == Ok(a) by { assert IntegerMath.RealPower(a, 1) == a; }
    assert IntegerMath.RatPow(a, 0) == Ok(1.0);
    assert Monomial.EvalProduct([0, 0], [b, c]) == Ok(1.0) by {
      assert [0, 0][1..] == [0] && [b, c][1..] == [c];
      assert [0][1..] == [] && [c][1..] == [];
      assert IntegerMath.RatPow(b, 0) == Ok(1.0) && IntegerMath.RatPow(c, 0) == Ok(1.0);
      assert Monomial.EvalProduct([0], [c]) == Ok(1.0);
    }
  }

  lemma LinearValuesTwo(a: real, b: real)
    ensures Monomial.EvalProduct([1, 0], [a, b]) == Ok(a)
    ensures Monomial.EvalProduct([0, 1], [a, b]) == Ok(b)
  {
    assert [1, 0][1..] == [0] && [0, 1][1..] == [1] && [a, b][1..] == [b];
    assert [0][1..] == [] && [1][1..] == [] && [b][1..] == [];
    assert IntegerMath.RealPower(a, 1) == a && IntegerMath.RealPower(b, 1) == b;
    assert IntegerMath.RatPow(a, 1) == Ok(a) && IntegerMath.RatPow(b, 1) == Ok(b);
    assert IntegerMath.RatPow(a, 0) == Ok(1.0) && IntegerMath.RatPow(b, 0) == Ok(1.0);
    assert Monomial.EvalProduct([0], [b]) == Ok(1.0);
    assert Monomial.EvalProduct([1], [b]) == Ok(b);
  }

  /** The first positional value, or zero for an empty vector. */
  function Head(v: seq<real>): (r: real)
    ensures v != [] ==> r == v[0]
  {
    if v == [] then 0.0 else v[0]
  }

  /** `z` is three times `x` and `y` twice `x`, computed from the one
      positional value: at `x = -3`, `x + y + z` is -18. */
  lemma ExtrasExample()
    ensures Make(SumXYZ(), ["x"], [Extra("z", v => 3.0 * Head(v)), Extra("y", v => 2.0 * Head(v))]).Ok?
    ensures Call(Make(SumXYZ(), ["x"], [Extra("z", v => 3.0 * Head(v)), Extra("y", v => 2.0 * Head(v))]).value, [-3.0]) == Ok(-18.0)
  {
    var f, g := (v: seq<real>) => 3.0 * Head(v), (v: seq<real>) => 2.0 * Head(v);
    TwoExtrasMake(f, g);
    TwoExtrasCall(f, g, [-3.0], Lambdified(SumXYZ(), ["x"], map["z" := f, "y" := g]));
    assert f([-3.0]) == -9.0 && g([-3.0]) == -6.0;
  }

  /** Two extra symbols `z` and `y` with distinct names: each keeps its
      callback. */
  lemma TwoExtrasMake(f: Callback, g: Callback)
    ensures Make(SumXYZ(), ["x"], [Extra("z", f), Extra("y", g)]) == Ok(Lambdified(SumXYZ(), ["x"], map["z" := f, "y" := g]))
  {
    var es := [Extra("z", f), Extra("y", g)];
    assert ExtraNames(es) == ["z", "y"];
    assert es[..1] == [Extra("z", f)] && es[..1][..0] == [];
    assert ExtraMap(es) == map["z" := f, "y" := g];
  }

  /** With `z` and `y` computed by callbacks from the one value of `x`,
      `x + y + z` is that value plus what the callbacks give. */
  lemma TwoExtrasCall(f: Callback, g: Callback, vals: seq<real>, l: Lambdified)
    requires |vals| == 1 && l == Lambdified(SumXYZ(), ["x"], map["z" := f, "y" := g])
    ensures Call(l, vals) == Ok(vals[0] + g(vals) + f(vals))
  {
    var point := map["x" := vals[0], "y" := g(vals), "z" := f(vals)];
    TwoExtrasPoint(f, g, vals, l, point);
    SumXYZValue(point);
    SumAtPoint(Call(l, vals), vals[0], g(vals), f(vals), point);
  }

  /** The assignment of a call of `TwoExtrasCall` gives `x` its value and
      `y` and `z` what their callbacks compute. */
  lemma TwoExtrasPoint(f: Callback, g: Callback, vals: seq<real>, l: Lambdified, point: map<string, real>)
    requires |vals| == 1 && l == Lambdified(SumXYZ(), ["x"], map["z" := f, "y" := g])
    requires point == map["x" := vals[0], "y" := g(vals), "z" := f(vals)]
    ensures Point(l, vals) == point
  {
    var p := Point(l, vals);
    assert "x" != "y" && "x" != "z" && "y" != "z";
    assert p.Keys == point.Keys;
    assert SymbolIndex(l.names, "x") == 0;
    assert p["x"] == vals[0] && p["y"] == g(vals) && p["z"] == f(vals);
  }

  lemma SumAtPoint(r: Result<real>, a: real, b: real, c: real, point: map<string, real>)
    requires point == map["x" := a, "y" := b, "z" := c]
    requires r == Ok(point["x"] + point["y"] + point["z"])
    ensures r == Ok(a + b + c)
  {
    assert "x" != "y" && "x" != "z" && "y" != "z";
  }

  /** With two entries for `y`, the first one (4) wins: `x + y` at `x = 1`
      is 5. */
  lemma FirstExtraWinsExample()
    ensures Make(SumXY(), ["x"], [Extra("y", v => 4.0), Extra("y", v => 3.0)]).Ok?
    ensures Call(Make(SumXY(), ["x"], [Extra("y", v => 4.0), Extra("y", v => 3.0)]).value, [1.0]) == Ok(5.0)
  {
    var es := [Extra("y", v => 4.0), Extra("y", v => 3.0)];
    assert ExtraNames(es) == ["y", "y"];
    var l := Make(SumXY(), ["x"], es).value;
    ExtraMapFirstWins(es, "y");
    var point := map["x" := 1.0, "y" := 4.0];
    CallIsEvaluate(l, [1.0], point);
    SumXYValue(point);
  }

  /** `x + y` over the symbols `x, y`. */
  function SumXY(): (s: Series)
    ensures Valid(s)
  {
    var s := Series(Integers, ["x", "y"], [Term(1.0, [1, 0]), Term(1.0, [0, 1])]);
    assert DistinctKeys(s.terms);
    s
  }

  lemma SumXYValue(point: map<string, real>)
    requires "x" in point && "y" in point
    ensures Substitution.Evaluate(SumXY(), point) == Ok(point["x"] + point["y"])
  {
    var a, b := point["x"], point["y"];
    assert Substitution.Values(SumXY().ss, point) == [a, b];
    LinearValuesTwo(a, b);
  }

  /** An extra symbol that is also positional throws `invalid_argument`. */
  lemma ExtraPositionalExample()
    ensures Make(SumXY(), ["x", "y"], [Extra("y", v => 4.0)]) == Err(InvalidArgument)
  {
    assert [Extra("y", (v: seq<real>) => 4.0)][0].name in ["x", "y"];
  }

  /** With no value for `y`, the call throws `invalid_argument`; so does a
      call with too many values. */
  lemma MissingValueExample()
    ensures Make(SumXYZ(), ["x"], [Extra("z", v => 3.0)]).Ok?
    ensures Call(Make(SumXYZ(), ["x"], [Extra("z", v => 3.0)]).value, [1.0]) == Err(InvalidArgument)
    ensures Call(Make(SumXYZ(), ["x"], [Extra("z", v => 3.0)]).value, [1.0, 2.0]) == Err(InvalidArgument)
  {
    var l := Make(SumXYZ(), ["x"], [Extra("z", v => 3.0)]).value;
    assert ExtraNames([Extra("z", (v: seq<real>) => 3.0)]) == ["z"];
    assert l.evaluable.ss[1] == "y";
  }

  /** A constant with no positional names called with three values throws
      `invalid_argument`; called with none it gives the constant. */
  lemma ConstantExample()
    ensures Make(Series(Rationals, [], [Term(3.4, [])]), [], []).Ok?
    ensures Call(Make(Series(Rationals, [], [Term(3.4, [])]), [], []).value, [1.0, 2.0, 3.0]) == Err(InvalidArgument)
    ensures Call(Make(Series(Rationals, [], [Term(3.4, [])]), [], []).value, []) == Ok(3.4)
  {
    assert Monomial.EvalProduct([], []) == Ok(1.0);
  }

  /** Only extra symbols: `x + y` with `x = 4` and `y = 3` computed from the
      empty vector is 7. */
  lemma OnlyExtrasExample()
    ensures Make(SumXY(), [], [Extra("x", v => 4.0), Extra("y", v => 3.0)]).Ok?
    ensures Call(Make(SumXY(), [], [Extra("x", v => 4.0), Extra("y", v => 3.0)]).value, []) == Ok(7.0)
  {
    var es := [Extra("x", v => 4.0), Extra("y", v => 3.0)];
    assert ExtraNames(es) == ["x", "y"];
    var l := Make(SumXY(), [], es).value;
    ExtraMapFirstWins(es, "x");
    ExtraMapFirstWins(es, "y");
    var point := map["x" := 4.0, "y" := 3.0];
    CallIsEvaluate(l, [], point);
    SumXYValue(point);
  }

  /** The zero polynomial is 0 at any values, extra symbols or not. */
  lemma ZeroExample()
    ensures Make(Series(Integers, [], []), ["x", "y"], [Extra("z", v => 1.0)]).Ok?
    ensures Call(Make(Series(Integers, [], []), ["x", "y"], [Extra("z", v => 1.0)]).value, [1.0, 2.0]) == Ok(0.0)
  {
    assert ["x", "y"][0] != ["x", "y"][1];
  }
}
