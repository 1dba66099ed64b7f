/**
 * Cardinal directions along the axes and the boolean masks indexed by them
 * (src/geom/card.rs).
 */
module GeomCard {

  datatype Card = MinusX | MinusY | PlusX | PlusY
  {
    /** `Card::flip`: the opposite direction on the same axis. */
    function Flip(): (r: Card)
      ensures r != this
      ensures r.Index() % 2 == Index() % 2
    {
      match this
      case MinusX => PlusX
      case PlusX => MinusX
      case MinusY => PlusY
      case PlusY => MinusY
    }

    /** `card as usize`: the position of the direction's flag in a mask. */
    function Index(): (r: nat)
      ensures r < 4
    {
      match this
      case MinusX => 0
      case MinusY => 1
      case PlusX => 2
      case PlusY => 3
    }
  }

  /** `Card::values`: every direction exactly once, in index order. */
  function Values(): (r: seq<Card>)
    ensures |r| == 4
    ensures forall c: Card :: r[c.Index()] == c
  {
    [MinusX, MinusY, PlusX, PlusY]
  }

  lemma FlipInvolution(c: Card)
    ensures c.Flip().Flip() == c
  {
  }

  /** The four flags of a mask (`[bool; 4]`). */
  type Flags = s: seq<bool> | |s| == 4 witness [false, false, false, false]

  datatype CardMask = CardMask(flags: Flags)
  {
    /** `Index<Card> for CardMask`. */
    function Get(c: Card): bool
    {
      flags[c.Index()]
    }

    /** A write through `IndexMut<Card> for CardMask`: one flag changes, the others stay. */
    function Set(c: Card, v: bool): (r: CardMask)
      ensures r.Get(c) == v
      ensures forall d: Card :: d != c ==> r.Get(d) == Get(d)
    {
      CardMask(flags[c.Index() := v])
    }

    /**
     * `CardMask::flip`: starts from the empty mask and copies each flag to
     * the opposite direction.
     */
    method Flip() returns (r: CardMask)
      ensures forall c: Card :: r.Get(c) == Get(c.Flip())
    {
      r := Empty();
      r := r.Set(PlusX, Get(MinusX));
      r := r.Set(MinusX, Get(PlusX));
      r := r.Set(PlusY, Get(MinusY));
      r := r.Set(MinusY, Get(PlusY));
    }
  }

  /** `CardMask::empty`: every flag false. */
  function Empty(): (r: CardMask)
    ensures forall c: Card :: !r.Get(c)
  {
    CardMask([false, false, false, false])
  }

  /** `CardMask::full`: every flag true. */
  function Full(): (r: CardMask)
    ensures forall c: Card :: r.Get(c)
  {
    CardMask([true, true, true, true])
  }

  /** `From<Card> for CardMask`: the mask whose only set flag is `card`'s. */
  method FromCard(card: Card) returns (r: CardMask)
    ensures forall c: Card :: r.Get(c) <==> c == card
  {
    r := Empty();
    r := r.Set(card, true);
  }

  /** Two masks with the same flag for every direction are the same mask. */
  lemma {:induction false} MaskExtensional(a: CardMask, b: CardMask)
    requires forall c: Card :: a.Get(c) == b.Get(c)
    ensures a == b
  {
    forall i | 0 <= i < 4
      ensures a.flags[i] == b.flags[i]
    {
      assert a.Get(Values()[i]) == b.Get(Values()[i]);
    }
  }
}
