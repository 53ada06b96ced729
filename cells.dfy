// Cell and species types of the falling-sand automaton (src/main.rs).

module Cells {

  /** An unsigned 8-bit value, the width of `u8` in the source. */
  type Byte = b: int | 0 <= b < 256

  datatype Option<T> = None | Some(value: T)

  /** The closed set of species. The source declares it `#[repr(u8)]` with an explicit
      discriminant per variant; see `Discriminant`. */
  datatype Species =
    | Empty | Wall | Sand | Water | Stone | Ice | Gas | Cloner | Mite | Wood
    | Plant | Fungus | Seed | Fire | Lava | Acid | Dust | Oil | Rocket

  /** `species as u8`: the discriminant written in the source's enum declaration. */
  function Discriminant(s: Species): (r: Byte)
    ensures r <= 19 && r != 10
  {
    match s
    case Empty => 0
    case Wall => 1
    case Sand => 2
    case Water => 3
    case Stone => 13
    case Ice => 9
    case Gas => 4
    case Cloner => 5
    case Mite => 15
    case Wood => 7
    case Plant => 11
    case Fungus => 18
    case Seed => 19
    case Fire => 6
    case Lava => 8
    case Acid => 12
    case Dust => 14
    case Oil => 16
    case Rocket => 17
  }

  /** The species whose discriminant is `b`, if any; the decoder for the species channel
      of a cells texture. */
  function FromByte(b: Byte): (r: Option<Species>)
    ensures r.Some? ==> Discriminant(r.value) == b
    ensures r.None? <==> b > 19 || b == 10
  {
    match b
    case 0 => Some(Empty)
    case 1 => Some(Wall)
    case 2 => Some(Sand)
    case 3 => Some(Water)
    case 4 => Some(Gas)
    case 5 => Some(Cloner)
    case 6 => Some(Fire)
    case 7 => Some(Wood)
    case 8 => Some(Lava)
    case 9 => Some(Ice)
    case 11 => Some(Plant)
    case 12 => Some(Acid)
    case 13 => Some(Stone)
    case 14 => Some(Dust)
    case 15 => Some(Mite)
    case 16 => Some(Oil)
    case 17 => Some(Rocket)
    case 18 => Some(Fungus)
    case 19 => Some(Seed)
    case _ => None
  }

  /** Decoding a discriminant gives back the species: the discriminants are pairwise distinct. */
  lemma DiscriminantRoundTrip(s: Species)
    ensures FromByte(Discriminant(s)) == Some(s)
  {
  }

  lemma DiscriminantInjective(a: Species, b: Species)
    ensures Discriminant(a) == Discriminant(b) <==> a == b
  {
    DiscriminantRoundTrip(a);
    DiscriminantRoundTrip(b);
  }

  /** `Species::all_active`: seventeen distinct species, neither Empty nor Wall among
      them, in the source's order. */
  function AllActive(): (r: seq<Species>)
    ensures |r| == 17
    ensures Empty !in r && Wall !in r
    ensures forall i, j :: 0 <= i < j < |r| ==> r[i] != r[j]
  {
    [Sand, Water, Gas, Cloner, Fire, Wood, Lava, Ice, Plant, Acid, Stone, Dust, Mite,
     Oil, Rocket, Fungus, Seed]
  }

  /** The active list leaves out exactly Empty and Wall: every other species is in it. */
  lemma AllActiveComplete(s: Species)
    ensures s in AllActive() <==> s != Empty && s != Wall
  {
    var r := AllActive();
    match s
    case Empty =>
    case Wall =>
    case Sand => assert r[0] == s;
    case Water => assert r[1] == s;
    case Gas => assert r[2] == s;
    case Cloner => assert r[3] == s;
    case Fire => assert r[4] == s;
    case Wood => assert r[5] == s;
    case Lava => assert r[6] == s;
    case Ice => assert r[7] == s;
    case Plant => assert r[8] == s;
    case Acid => assert r[9] == s;
    case Stone => assert r[10] == s;
    case Dust => assert r[11] == s;
    case Mite => assert r[12] == s;
    case Oil => assert r[13] == s;
    case Rocket => assert r[14] == s;
    case Fungus => assert r[15] == s;
    case Seed => assert r[16] == s;
  }

  /** A grid cell: its species and three bytes of per-cell state. */
  datatype Cell = Cell(species: Species, ra: Byte, rb: Byte, clock: Byte)

  /** `Cell::default()`: the derived default, an Empty cell with all bytes zero. */
  const DefaultCell: Cell := Cell(Empty, 0, 0, 0)

  /** The species the sweep moves: Sand and Water by their own rules, and Empty, which
      the sweep routes to the sand rule. Every other species is inert in a tick. */
  predicate Mobile(s: Species)
  {
    s == Sand || s == Water || s == Empty
  }
}
