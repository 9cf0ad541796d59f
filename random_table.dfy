/** RandomTable: a 32-bit linear congruential generator that fills a table of
    unsigned 16-bit values, with two entry points whose upper bounds differ by one. */
module RandomTables {
  import opened Bytes
  import opened Outcomes

  const MAX_SHORT: u32 := 65535
  const DEFAULT_MULTIPLIER: u32 := 7563921

  /** `Seed * Multiplier + 1` in unsigned 32-bit arithmetic. */
  function NextSeed(seed: u32, multiplier: u32): (r: u32)
    ensures r as int == (seed as int * multiplier as int + 1) % 0x1_0000_0000
  {
    ((seed as int * multiplier as int + 1) % 0x1_0000_0000) as u32
  }

  /** The seed after `k` steps of the generator. */
  function SeedAt(seed: u32, multiplier: u32, k: nat): u32 {
    if k == 0 then seed else NextSeed(SeedAt(seed, multiplier, k - 1), multiplier)
  }

  /** `MaxValue - MinValue` in unsigned 32-bit arithmetic. */
  function Span(minValue: u32, maxValue: u32): (r: nat)
    ensures r < 0x1_0000_0000
    ensures minValue <= maxValue ==> r == maxValue as int - minValue as int
  {
    (maxValue as int - minValue as int) % 0x1_0000_0000
  }

  /** `(ushort)((seed % (MaxValue - MinValue)) + MinValue)`: the uint sum wraps at
      2^32 and the cast keeps the low 16 bits. */
  function Cell(seed: u32, minValue: u32, maxValue: u32): u16
    requires Span(minValue, maxValue) != 0
  {
    (((seed as int % Span(minValue, maxValue) + minValue as int) % 0x1_0000_0000) % 0x1_0000) as u16
  }

  /** The table a fill of `n` entries produces: entry i comes from the (i+1)-th seed. */
  function Table(seed: u32, multiplier: u32, minValue: u32, maxValue: u32, n: nat): (t: seq<u16>)
    requires n == 0 || Span(minValue, maxValue) != 0
    ensures |t| == n
  {
    seq(n, i requires 0 <= i < n => Cell(SeedAt(seed, multiplier, i + 1), minValue, maxValue))
  }

  /** A fill can run: `%` by a zero span throws as soon as there is an entry to fill. */
  predicate Fillable(n: nat, minValue: u32, maxValue: u32) {
    n == 0 || Span(minValue, maxValue) != 0
  }

  class RandomTable {
    const size: nat
    var Seed: u32
    var MinValue: u32
    var MaxValue: u32
    var SeedID: u32
    var Multiplier: u32
    const Values: array<u16>

    ghost predicate Valid()
      reads this
    {
      Values.Length == size
    }

    /** The constructor stores `newMaxVaue + 1` (an inclusive bound) and fills the table. */
    constructor (size: nat, newMinValue: u32 := 0, newMaxVaue: u32 := MAX_SHORT, initSeed: u32 := 0,
                 seedNumber: u32 := 0, newMultiplier: u32 := DEFAULT_MULTIPLIER)
      requires Fillable(size, newMinValue, ((newMaxVaue as int + 1) % 0x1_0000_0000) as u32)
      ensures Valid() && fresh(Values) && this.size == size
      ensures MinValue == newMinValue && MaxValue as int == (newMaxVaue as int + 1) % 0x1_0000_0000
      ensures SeedID == seedNumber && Multiplier == newMultiplier
      ensures Values[..] == Table(initSeed, newMultiplier, MinValue, MaxValue, size)
      ensures Seed == SeedAt(initSeed, newMultiplier, size)
    {
      this.size := size;
      MinValue := newMinValue;
      MaxValue := ((newMaxVaue as int + 1) % 0x1_0000_0000) as u32;
      Seed := initSeed;
      SeedID := seedNumber;
      Multiplier := newMultiplier;
      Values := new u16[size];
      new;
      var filled := CreateTable();
    }

    /** CreateRandom stores `NewMaxValue` as given (an exclusive bound); a zero
        multiplier keeps the current one. A zero span makes the fill throw. */
    method CreateRandom(NewMinValue: u32 := 0, NewMaxValue: u32 := MAX_SHORT, InitSeed: u32 := 0,
                        newMultiplier: u32 := 0) returns (r: Result<()>)
      requires Valid()
      modifies this, Values
      ensures Valid()
      ensures MinValue == NewMinValue && MaxValue == NewMaxValue && SeedID == old(SeedID)
      ensures Multiplier == if newMultiplier > 0 then newMultiplier else old(Multiplier)
      ensures Fillable(size, NewMinValue, NewMaxValue) ==>
        r == Success(())
        && Values[..] == Table(InitSeed, Multiplier, NewMinValue, NewMaxValue, size)
        && Seed == SeedAt(InitSeed, Multiplier, size)
      ensures !Fillable(size, NewMinValue, NewMaxValue) ==>
        r == Failure(DivideByZero) && Values[..] == old(Values[..]) && Seed == NextSeed(InitSeed, Multiplier)
    {
      MinValue := NewMinValue;
      MaxValue := NewMaxValue;
      Seed := InitSeed;
      if newMultiplier > 0 {
        Multiplier := newMultiplier;
      }
      r := CreateTable();
    }

    /** createTable: overwrites every entry in order, advancing Seed once per entry.
        With a zero span the `%` of the first entry throws, after the first seed step
        and before any entry is written. */
    method CreateTable() returns (r: Result<()>)
      requires Valid()
      modifies this`Seed, Values
      ensures Fillable(size, MinValue, MaxValue) ==>
        r == Success(())
        && Values[..] == Table(old(Seed), Multiplier, MinValue, MaxValue, size)
        && Seed == SeedAt(old(Seed), Multiplier, size)
      ensures !Fillable(size, MinValue, MaxValue) ==>
        r == Failure(DivideByZero) && Values[..] == old(Values[..]) && Seed == NextSeed(old(Seed), Multiplier)
    {
      ghost var seed0 := Seed;
      for i := 0 to size
        invariant Seed == SeedAt(seed0, Multiplier, i)
        invariant Span(MinValue, MaxValue) != 0 || (i == 0 && Values[..] == old(Values[..]))
        invariant forall k :: 0 <= k < i ==> Values[k] == Cell(SeedAt(seed0, Multiplier, k + 1), MinValue, MaxValue)
      {
        Seed := NextSeed(Seed, Multiplier);
        if Span(MinValue, MaxValue) == 0 {
          return Failure(DivideByZero);
        }
        Values[i] := Cell(Seed, MinValue, MaxValue);
      }
      r := Success(());
    }

    /** Randomize is a stub: it returns 0 and changes nothing. */
    method Randomize() returns (r: u32)
      ensures r == 0
    {
      r := 0;
    }
  }

  /** When MinValue < MaxValue <= 65536 nothing wraps: every entry lies in [MinValue, MaxValue). */
  lemma TableBounds(seed: u32, multiplier: u32, minValue: u32, maxValue: u32, n: nat)
    requires minValue < maxValue <= 0x1_0000
    ensures forall i :: 0 <= i < n ==>
      minValue <= Table(seed, multiplier, minValue, maxValue, n)[i] as int as u32 < maxValue
  {
    var t := Table(seed, multiplier, minValue, maxValue, n);
    forall i | 0 <= i < n
      ensures minValue <= t[i] as int as u32 < maxValue
    {
      CellBounds(SeedAt(seed, multiplier, i + 1), minValue, maxValue);
    }
  }

  /** One entry: without wrap-around the cell is `seed % span + MinValue`. */
  lemma CellBounds(seed: u32, minValue: u32, maxValue: u32)
    requires minValue < maxValue <= 0x1_0000
    ensures Cell(seed, minValue, maxValue) as int == seed as int % (maxValue as int - minValue as int) + minValue as int
    ensures minValue as int <= Cell(seed, minValue, maxValue) as int < maxValue as int
  {
    var span := maxValue as int - minValue as int;
    assert Span(minValue, maxValue) == span;
    var m := seed as int % span;
    assert 0 <= m < span;
    var t := m + minValue as int;
    assert 0 <= t < 0x1_0000;
    assert t % 0x1_0000_0000 == t && t % 0x1_0000 == t;
  }

  /** From seed 0 the first generated seed is 1, so the first entry is `1 % (Max - Min) + Min`. */
  lemma FirstEntryFromZeroSeed(multiplier: u32, minValue: u32, maxValue: u32, n: nat)
    requires minValue < maxValue <= 0x1_0000 && n > 0
    ensures SeedAt(0, multiplier, 1) == 1
    ensures Table(0, multiplier, minValue, maxValue, n)[0] as int == 1 % (maxValue as int - minValue as int) + minValue as int
  {
    assert 0 * multiplier as int == 0;
    assert SeedAt(0, multiplier, 1) == NextSeed(0, multiplier) == 1;
    CellBounds(1, minValue, maxValue);
  }

  /** Filling more entries from the same seed extends the table: the common prefix is the same,
      and the extra entries are those of a fill started from the seed the shorter fill ends on. */
  lemma {:induction false} TableExtends(seed: u32, multiplier: u32, minValue: u32, maxValue: u32, n: nat, k: nat)
    requires Span(minValue, maxValue) != 0
    ensures Table(seed, multiplier, minValue, maxValue, n + k)
         == Table(seed, multiplier, minValue, maxValue, n)
          + Table(SeedAt(seed, multiplier, n), multiplier, minValue, maxValue, k)
  {
    var whole := Table(seed, multiplier, minValue, maxValue, n + k);
    var rest := Table(SeedAt(seed, multiplier, n), multiplier, minValue, maxValue, k);
    forall j | 0 <= j < k
      ensures whole[n + j] == rest[j]
    {
      SeedAtAdd(seed, multiplier, n, j + 1);
    }
  }

  lemma {:induction false} SeedAtAdd(seed: u32, multiplier: u32, n: nat, j: nat)
    ensures SeedAt(SeedAt(seed, multiplier, n), multiplier, j) == SeedAt(seed, multiplier, n + j)
  {
    if j > 0 {
      SeedAtAdd(seed, multiplier, n, j - 1);
    }
  }
}
