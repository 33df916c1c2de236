// The ship list of game.ts: each ship is the list of its segments not yet
// hit; updateShipList removes a hit segment and checkShips is the win test.
module Fleet {
  import opened Board

  /**
   * A ship, as the list of its live segments in placement order. The source
   * keeps the keys `"x-y"` of the segments (see Keys); since Key is
   * injective, comparing coordinates and comparing keys agree.
   */
  type Ship = seq<Coord>

  /** The source's form of a ship: the key `"x-y"` of each segment, in order (see KeysAt). */
  function Keys(ship: Ship): (r: seq<string>)
    ensures ship == [] <==> r == []
    ensures forall c :: c in ship ==> Key(c) in r
  {
    if ship == [] then [] else [Key(ship[0])] + Keys(ship[1..])
  }

  /** One key per segment, at the segment's own index. */
  lemma {:induction false} KeysAt(ship: Ship)
    ensures |Keys(ship)| == |ship|
    ensures forall i :: 0 <= i < |ship| ==> Keys(ship)[i] == Key(ship[i])
  {
    if ship != [] {
      KeysAt(ship[1..]);
    }
  }

  predicate NoDuplicates(ship: Ship)
  {
    forall a, b :: 0 <= a < b < |ship| ==> ship[a] != ship[b]
  }

  /** No two ships share a segment. */
  predicate Disjoint(ships: seq<Ship>)
  {
    forall i, j, c :: 0 <= i < j < |ships| && c in ships[i] ==> c !in ships[j]
  }

  /** `keys.filter((k) => k !== key)`, the filter updateShipList runs on one ship's keys. */
  function DropKey(keys: seq<string>, key: string): (r: seq<string>)
    ensures forall k :: k in r <==> k in keys && k != key
    ensures |r| <= |keys|
    ensures key !in keys ==> r == keys
  {
    if keys == [] then []
    else if keys[0] == key then DropKey(keys[1..], key)
    else [keys[0]] + DropKey(keys[1..], key)
  }

  /** The ship with every occurrence of segment c removed. */
  function Without(ship: Ship, c: Coord): (r: Ship)
    ensures forall d :: d in r <==> d in ship && d != c
    ensures |r| <= |ship|
    ensures NoDuplicates(ship) ==> NoDuplicates(r)
  {
    if ship == [] then []
    else if ship[0] == c then Without(ship[1..], c)
    else
      assert NoDuplicates(ship) ==> ship[0] !in ship[1..];
      [ship[0]] + Without(ship[1..], c)
  }

  /** Removing a segment keeps the relative order of the others: it works piecewise. */
  lemma {:induction false} WithoutConcat(a: Ship, b: Ship, c: Coord)
    ensures Without(a + b, c) == Without(a, c) + Without(b, c)
  {
    if a == [] {
      assert a + b == b;
    } else {
      assert (a + b)[0] == a[0];
      assert (a + b)[1..] == a[1..] + b;
      WithoutConcat(a[1..], b, c);
    }
  }

  /** A ship without the segment is left exactly as it was. */
  lemma {:induction false} WithoutAbsent(ship: Ship, c: Coord)
    requires c !in ship
    ensures Without(ship, c) == ship
  {
    if ship != [] {
      assert ship[0] in ship;
      WithoutAbsent(ship[1..], c);
    }
  }

  /** A ship holding the segment once loses exactly that one segment. */
  lemma {:induction false} WithoutOwner(ship: Ship, c: Coord)
    requires NoDuplicates(ship) && c in ship
    ensures |Without(ship, c)| == |ship| - 1
  {
    if ship[0] == c {
      assert c !in ship[1..];
      WithoutAbsent(ship[1..], c);
    } else {
      WithoutOwner(ship[1..], c);
    }
  }

  /** The coordinate filter computes the source's filter on the string keys. */
  lemma {:induction false} KeysOfWithout(ship: Ship, c: Coord)
    ensures Keys(Without(ship, c)) == DropKey(Keys(ship), Key(c))
  {
    if ship != [] {
      KeyInjective(ship[0], c);
      KeysOfWithout(ship[1..], c);
      if ship[0] != c {
        var rest := Without(ship[1..], c);
        assert ([ship[0]] + rest)[1..] == rest;
      }
    }
  }

  /** updateShipList's result: every ship with segment c removed. */
  function RemoveSegment(ships: seq<Ship>, c: Coord): (r: seq<Ship>)
    ensures |r| == |ships|
    ensures forall k, d :: 0 <= k < |r| ==> (d in r[k] <==> d in ships[k] && d != c)
    ensures Disjoint(ships) ==> Disjoint(r)
    ensures (forall k :: 0 <= k < |ships| ==> NoDuplicates(ships[k])) ==> forall k :: 0 <= k < |r| ==> NoDuplicates(r[k])
  {
    seq(|ships|, k requires 0 <= k < |ships| => Without(ships[k], c))
  }

  /**
   * With disjoint ships, a hit segment belongs to one ship: that ship
   * shrinks by exactly one segment and every other ship is unchanged.
   */
  lemma RemoveShrinksOwner(ships: seq<Ship>, c: Coord, owner: nat)
    requires Disjoint(ships) && owner < |ships| && NoDuplicates(ships[owner]) && c in ships[owner]
    ensures |RemoveSegment(ships, c)[owner]| == |ships[owner]| - 1
    ensures forall k :: 0 <= k < |ships| && k != owner ==> RemoveSegment(ships, c)[k] == ships[k]
  {
    WithoutOwner(ships[owner], c);
    forall k | 0 <= k < |ships| && k != owner
      ensures RemoveSegment(ships, c)[k] == ships[k]
    {
      WithoutAbsent(ships[k], c);
    }
  }

  /** checkShips: true exactly when no ship has a segment left (so also for no ships). */
  method CheckShips(ships: seq<Ship>) returns (isEmpty: bool)
    ensures isEmpty <==> forall k :: 0 <= k < |ships| ==> ships[k] == []
  {
    isEmpty := true;
    for i := 0 to |ships|
      invariant isEmpty <==> forall k :: 0 <= k < i ==> ships[k] == []
    {
      if |ships[i]| != 0 {
        isEmpty := false;
        break;
      }
    }
  }
}
