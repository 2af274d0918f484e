/** Numeric helpers and map inversion of src/functions/utils.ts. */
module Utils {

  /** `rd` is `Math.round`: the nearest integer, halves rounded up. */
  function Rd(x: real): (n: int)
    ensures x - 0.5 < n as real <= x + 0.5
  {
    (x + 0.5).Floor
  }

  /** Rounding leaves an integer where it is. */
  lemma RdOfInteger(n: int)
    ensures Rd(n as real) == n
  {
  }

  /** `rd2`: rounds to hundredths through `rd`. */
  function Rd2(x: real): (y: real)
    ensures y * 100.0 == Rd(x * 100.0) as real
    ensures -0.005 < y - x <= 0.005
  {
    Rd(x * 100.0) as real / 100.0
  }

  /** A value already in hundredths is not moved by `rd2`. */
  lemma Rd2Idempotent(x: real)
    ensures Rd2(Rd2(x)) == Rd2(x)
  {
    var k := Rd(x * 100.0);
    assert Rd2(x) * 100.0 == k as real;
    RdOfInteger(k);
  }

  /** The percentage of a value rounded to hundredths, rounded again, is the rounded
      percentage of the value itself. */
  lemma Rd2Percent(x: real)
    ensures Rd(Rd2(x) * 100.0) == Rd(x * 100.0)
  {
    RdOfInteger(Rd(x * 100.0));
  }

  /** A `for…in` loop over `o` visits every own key; `order` is the visiting order,
      which may also hold inherited keys (those fail `hasOwnProperty` and are skipped). */
  ghost predicate Enumerates(o: map<string, string>, order: seq<string>)
  {
    forall k :: k in o ==> k in order
  }

  /** The dictionary `flip` has built after visiting the keys in `order`: each own key `k`
      writes `flipped[o[k]] := k`, so of two keys with the same value the later one wins. */
  function Flipped(o: map<string, string>, order: seq<string>): map<string, string>
  {
    if order == [] then map[]
    else
      var f := Flipped(o, order[..|order| - 1]);
      var k := order[|order| - 1];
      if k in o then f[o[k] := k] else f
  }

  /** Every entry of the flipped dictionary points back to a key holding its value, and every
      visited own key left its value as a key. */
  lemma {:induction false} FlippedInverts(o: map<string, string>, order: seq<string>)
    ensures forall v :: v in Flipped(o, order) ==> Flipped(o, order)[v] in o && o[Flipped(o, order)[v]] == v
    ensures forall k :: k in o && k in order ==> o[k] in Flipped(o, order)
  {
    if order != [] {
      var init := order[..|order| - 1];
      FlippedInverts(o, init);
      forall k | k in o && k in order
        ensures o[k] in Flipped(o, order)
      {
        if k != order[|order| - 1] {
          assert k in init;
        }
      }
    }
  }

  /** The keys of `flip(o)` are exactly the values of `o`. */
  lemma FlippedKeys(o: map<string, string>, order: seq<string>)
    requires Enumerates(o, order)
    ensures Flipped(o, order).Keys == o.Values
  {
    FlippedInverts(o, order);
    var f := Flipped(o, order);
    forall v | v in o.Values ensures v in f {
      var k :| k in o && o[k] == v;
    }
  }

  /** No two keys share a value. */
  ghost predicate Injective(o: map<string, string>)
  {
    forall k, k' :: k in o && k' in o && o[k] == o[k'] ==> k == k'
  }

  /** For an injective dictionary, flipping twice gives it back, whatever the visiting orders. */
  lemma FlipFlip(o: map<string, string>, order: seq<string>, order': seq<string>)
    requires Injective(o)
    requires Enumerates(o, order)
    requires Enumerates(Flipped(o, order), order')
    ensures Flipped(Flipped(o, order), order') == o
  {
    var f := Flipped(o, order);
    var ff := Flipped(f, order');
    FlippedInverts(o, order);
    FlippedInverts(f, order');
    FlippedKeys(f, order');
    forall k | k in o ensures k in ff && ff[k] == o[k] {
      assert f[o[k]] == k;
      assert k in f.Values;
      var w := ff[k];
      assert f[w] == k;
      assert o[f[w]] == w;
    }
    forall k | k in ff ensures k in o {
      assert k in f.Values;
    }
  }

  /** `flip`: builds the inverted dictionary in place, one visited key at a time. */
  method Flip(o: map<string, string>, order: seq<string>) returns (flipped: map<string, string>)
    requires Enumerates(o, order)
    ensures flipped == Flipped(o, order)
    ensures flipped.Keys == o.Values
    ensures forall v :: v in flipped ==> flipped[v] in o && o[flipped[v]] == v
  {
    flipped := map[];
    for i := 0 to |order|
      invariant flipped == Flipped(o, order[..i])
    {
      var k := order[i];
      assert order[..i + 1][..i] == order[..i];
      if k in o {
        flipped := flipped[o[k] := k];
      }
    }
    assert order[..|order|] == order;
    FlippedInverts(o, order);
    FlippedKeys(o, order);
  }
}
