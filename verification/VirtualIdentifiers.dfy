/** Names for the constants that inlining introduces. */
module VirtualIdentifiers {
  import opened Seqs

  function Digit(d: nat): char
    requires d < 10
  {
    '0' + d as char
  }

  function Decimal(n: nat): string {
    if n < 10 then [Digit(n)] else Decimal(n / 10) + [Digit(n % 10)]
  }

  function VirtualId(name: string, n: nat): string {
    "__virtual_" + name + "_" + Decimal(n) + "__"
  }

  predicate AllDigits(s: string) {
    forall i :: 0 <= i < |s| ==> '0' <= s[i] <= '9'
  }

  lemma {:induction false} DecimalDigits(n: nat)
    ensures Decimal(n) != [] && AllDigits(Decimal(n))
  {
    if n >= 10 { DecimalDigits(n / 10); }
  }

  lemma {:induction false} DecimalInjective(m: nat, n: nat)
    requires Decimal(m) == Decimal(n)
    ensures m == n
  {
    DecimalDigits(m / 10);
    DecimalDigits(n / 10);
    if m >= 10 && n >= 10 {
      assert Decimal(m)[..|Decimal(m)| - 1] == Decimal(m / 10);
      assert Decimal(n)[..|Decimal(n)| - 1] == Decimal(n / 10);
      assert Decimal(m)[|Decimal(m)| - 1] == Decimal(n)[|Decimal(n)| - 1];
      DecimalInjective(m / 10, n / 10);
    } else {
      assert |Decimal(m)| == |Decimal(n)|;
    }
  }

  function DropDigits(s: string): string {
    if s != "" && '0' <= s[|s| - 1] <= '9' then DropDigits(s[..|s| - 1]) else s
  }

  lemma {:induction false} DropDigitsAfter(x: string, d: string)
    requires AllDigits(d)
    ensures DropDigits(x + "_" + d) == x + "_"
  {
    if d == "" {
      assert x + "_" + d == x + "_";
    } else {
      var init := d[..|d| - 1];
      assert (x + "_" + d)[..|x + "_" + d| - 1] == x + "_" + init;
      DropDigitsAfter(x, init);
    }
  }

  lemma DigitsAfterUnderscore(x: string, d: string, y: string, e: string)
    requires x + "_" + d == y + "_" + e
    requires AllDigits(d)
    requires AllDigits(e)
    ensures d == e
  {
    DropDigitsAfter(x, d);
    DropDigitsAfter(y, e);
    assert |x + "_"| == |y + "_"|;
    assert d == (x + "_" + d)[|x + "_"|..] && e == (y + "_" + e)[|y + "_"|..];
  }

  /** Identifiers made from different counter values differ, whatever the names. */
  lemma VirtualIdInjective(a: string, m: nat, b: string, n: nat)
    requires VirtualId(a, m) == VirtualId(b, n)
    ensures m == n
  {
    DecimalDigits(m);
    DecimalDigits(n);
    var s, x, y := VirtualId(a, m), "__virtual_" + a, "__virtual_" + b;
    assert s[..|s| - 2] == x + "_" + Decimal(m);
    assert s[..|s| - 2] == y + "_" + Decimal(n);
    DigitsAfterUnderscore(x, Decimal(m), y, Decimal(n));
    DecimalInjective(m, n);
  }

  datatype Location = Location(line: nat, column: nat, endLine: nat, endColumn: nat)

  class VirtualVariableIdentifier {
    var counter: nat
    var idToLocations: map<string, Option<Location>>

    ghost predicate Valid()
      reads this
    {
      forall id :: id in idToLocations ==> exists name, n: nat :: n < counter && id == VirtualId(name, n)
    }

    constructor ()
      ensures Valid() && counter == 0 && idToLocations == map[]
    {
      counter, idToLocations := 0, map[];
    }

    /** An identifier that no call since the last reset has returned. */
    method Generate(name: string, location: Option<Location>) returns (virtualId: string)
      requires Valid()
      modifies this
      ensures Valid() && virtualId == VirtualId(name, old(counter)) && counter == old(counter) + 1
      ensures virtualId !in old(idToLocations) && idToLocations == old(idToLocations)[virtualId := location]
    {
      virtualId := VirtualId(name, counter);
      FreshId(idToLocations.Keys, counter, name);
      counter := counter + 1;
      idToLocations := idToLocations[virtualId := location];
    }

    function GetLocation(virtualId: string): Option<Location>
      reads this
    {
      if virtualId in idToLocations then idToLocations[virtualId] else None
    }

    method Reset()
      modifies this
      ensures Valid() && counter == 0 && idToLocations == map[]
    {
      counter, idToLocations := 0, map[];
    }
  }

  lemma FreshId(ids: set<string>, counter: nat, name: string)
    requires forall id :: id in ids ==> exists n, m: nat :: m < counter && id == VirtualId(n, m)
    ensures VirtualId(name, counter) !in ids
  {
    var id := VirtualId(name, counter);
    if id in ids {
      var n, m: nat :| m < counter && id == VirtualId(n, m);
      VirtualIdInjective(name, counter, n, m);
    }
  }
}
