/** Column shadows: one flag for each column, packed eight to a byte, the first column in the
    highest bit. */
module ColumnShadows {

  const SHD_MAGIC_NUMBER: int := 0xfedefed0

  // ---------------------------------------------------------------- bits

  /** The bit of a byte at distance d from the lowest one. */
  function LowBit(b: bv8, d: nat): bool
    requires d < 8
  {
    (b >> d) & 1 == 1
  }

  /** Flag k of a byte. */
  function Bit(b: bv8, k: nat): bool
    requires k < 8
  {
    LowBit(b, 7 - k)
  }

  /** Everything but flag k. */
  function Mask(k: nat): bv8
    requires k < 8
  {
    !((1 as bv8) << (7 - k))
  }

  /** Flag k alone, if it is set. */
  function Put(k: nat, v: bool): bv8
    requires k < 8
  {
    (if v then 1 as bv8 else 0) << (7 - k)
  }

  /** The byte with flag k set to v: the flag is masked out and then put in. */
  function WithBit(b: bv8, k: nat, v: bool): bv8
    requires k < 8
  {
    (b & Mask(k)) | Put(k, v)
  }

  lemma LowBitOr(x: bv8, y: bv8, d: nat)
    requires d < 8
    ensures LowBit(x | y, d) == (LowBit(x, d) || LowBit(y, d))
  {
  }

  lemma LowBitAnd(x: bv8, y: bv8, d: nat)
    requires d < 8
    ensures LowBit(x & y, d) == (LowBit(x, d) && LowBit(y, d))
  {
  }

  /** A flag and its mask, seen from each place. */
  lemma OneBit(k: nat, v: bool, j: nat)
    requires k < 8 && j < 8
    ensures LowBit(Put(k, v), 7 - j) == (j == k && v)
    ensures LowBit(Mask(k), 7 - j) == (j != k)
  {
  }

  lemma LowBitPut(b: bv8, m: bv8, p: bv8, d: nat)
    requires d < 8
    ensures LowBit((b & m) | p, d) == ((LowBit(b, d) && LowBit(m, d)) || LowBit(p, d))
  {
    hide LowBit;
    LowBitOr(b & m, p, d);
    LowBitAnd(b, m, d);
  }

  /** Setting a flag changes that flag only. */
  lemma BitSet(b: bv8, k: nat, v: bool, j: nat)
    requires k < 8 && j < 8
    ensures Bit(WithBit(b, k, v), j) == if j == k then v else Bit(b, j)
  {
    hide LowBit, Mask, Put;
    LowBitPut(b, Mask(k), Put(k, v), 7 - j);
    OneBit(k, v, j);
  }

  // ---------------------------------------------------------------- vectors of flags

  /** Flag p of a vector of bytes. */
  function FlagAt(s: seq<bv8>, p: nat): bool
    requires p / 8 < |s|
  {
    Bit(s[p / 8], p % 8)
  }

  /** Setting a flag changes that flag only. */
  lemma FlagSet(s: seq<bv8>, p: nat, v: bool, q: nat)
    requires p / 8 < |s| && q / 8 < |s|
    ensures FlagAt(s[p / 8 := WithBit(s[p / 8], p % 8, v)], q) == if q == p then v else FlagAt(s, q)
  {
    hide Bit, WithBit;
    if q / 8 == p / 8 {
      BitSet(s[p / 8], p % 8, v, q % 8);
    }
  }

  lemma NoFlag(s: seq<bv8>, p: nat)
    requires p / 8 < |s| && s[p / 8] == 0
    ensures !FlagAt(s, p)
  {
  }

  /** The first n flags. */
  function Flags(s: seq<bv8>, n: nat): (f: seq<bool>)
    requires n <= 8 * |s|
    ensures |f| == n && forall p :: 0 <= p < n ==> f[p] == FlagAt(s, p)
  {
    seq(n, p requires 0 <= p < n => FlagAt(s, p))
  }

  /** The flags once column p is set. */
  lemma FlagsSet(s: seq<bv8>, n: nat, p: nat, v: bool)
    requires n <= 8 * |s| && p < n
    ensures Flags(s[p / 8 := WithBit(s[p / 8], p % 8, v)], n) == Flags(s, n)[p := v]
  {
    hide FlagAt, WithBit;
    var r := s[p / 8 := WithBit(s[p / 8], p % 8, v)];
    forall q | 0 <= q < n
      ensures FlagAt(r, q) == Flags(s, n)[p := v][q]
    {
      FlagSet(s, p, v, q);
    }
  }

  // ---------------------------------------------------------------- shaded columns as a list

  /** The shaded columns, in order. */
  function Shaded(f: seq<bool>): (r: seq<nat>)
    ensures forall i :: 0 <= i < |r| ==> r[i] < |f| && f[r[i]]
  {
    if f == [] then []
    else Shaded(f[..|f|-1]) + (if f[|f|-1] then [|f| - 1] else [])
  }

  /** The flags after a list of columns is shaded; columns that are not there are ignored. */
  function Loaded(f: seq<bool>, list: seq<int>): (r: seq<bool>)
    requires forall i :: 0 <= i < |list| ==> 0 <= list[i]
    ensures |r| == |f|
  {
    if list == [] then f
    else
      var g := Loaded(f, list[..|list|-1]);
      var p := list[|list|-1];
      if p < |f| then g[p := true] else g
  }

  /** What loading does: exactly the listed columns are shaded besides those that were. */
  lemma {:induction false} LoadedFlags(f: seq<bool>, list: seq<int>, p: nat)
    requires p < |f| && forall i :: 0 <= i < |list| ==> 0 <= list[i]
    ensures Loaded(f, list)[p] <==> f[p] || p in list
  {
    if list != [] {
      LoadedFlags(f, list[..|list|-1], p);
      assert list == list[..|list|-1] + [list[|list|-1]];
    }
  }

  lemma {:induction false} ShadedAll(f: seq<bool>, p: nat)
    requires p < |f|
    ensures p in Shaded(f) <==> f[p]
  {
    var g := Shaded(f[..|f|-1]);
    assert forall i :: 0 <= i < |g| ==> g[i] < |f| - 1;
    if p < |f| - 1 {
      ShadedAll(f[..|f|-1], p);
    }
  }

  /** The columns that are listed are listed once, in increasing order. */
  lemma {:induction false} ShadedInOrder(f: seq<bool>)
    ensures forall i, j :: 0 <= i < j < |Shaded(f)| ==> Shaded(f)[i] < Shaded(f)[j]
  {
    if f != [] {
      ShadedInOrder(f[..|f|-1]);
    }
  }

  /** Saving and loading: the saved list restores the columns that both vectors have, on top of
      the columns that are shaded already. */
  lemma SavedLoaded(f: seq<bool>, g: seq<bool>)
    ensures Loaded(g, Shaded(f)) == seq(|g|, p requires 0 <= p < |g| => g[p] || (p < |f| && f[p]))
  {
    hide Loaded, Shaded;
    forall p | 0 <= p < |g|
      ensures Loaded(g, Shaded(f))[p] == (g[p] || (p < |f| && f[p]))
    {
      LoadedFlags(g, Shaded(f), p);
      if p < |f| {
        ShadedAll(f, p);
      } else {
        assert forall i :: 0 <= i < |Shaded(f)| ==> Shaded(f)[i] < |f|;
      }
    }
  }

  /** Loading into a cleared vector of the same width restores the saved one. */
  lemma SavedRestored(f: seq<bool>)
    ensures Loaded(seq(|f|, _ => false), Shaded(f)) == f
  {
    SavedLoaded(f, seq(|f|, _ => false));
  }

  /** The flags of columns that stay, and clear flags for new columns. */
  function Resized(f: seq<bool>, n: nat): (r: seq<bool>)
    ensures |r| == n && forall p :: 0 <= p < n ==> (r[p] <==> p < |f| && f[p])
  {
    seq(n, p requires 0 <= p < n => p < |f| && f[p])
  }

  // ---------------------------------------------------------------- the class

  class ColumnShadows {
    var cols: nat
    var shadeFlagVector: array<bv8>

    ghost predicate Valid()
      reads this
    {
      shadeFlagVector.Length == cols + 1
    }

    /** The abstract value: a flag for each column. */
    ghost function Contents(): (f: seq<bool>)
      reads this, shadeFlagVector
      requires Valid()
      ensures |f| == cols
    {
      Flags(shadeFlagVector[..], cols)
    }

    constructor (numColumns: nat)
      ensures Valid() && fresh(shadeFlagVector) && Contents() == seq(numColumns, _ => false)
    {
      hide FlagAt;
      cols := numColumns;
      shadeFlagVector := new bv8[numColumns + 1](_ => 0);
      new;
      forall p | 0 <= p < cols
        ensures !FlagAt(shadeFlagVector[..], p)
      {
        NoFlag(shadeFlagVector[..], p);
      }
    }

    /** Changes the number of columns: the columns that stay keep their flags, new ones are clear. */
    method Resize(newsize: nat)
      requires Valid()
      modifies this
      ensures Valid() && fresh(shadeFlagVector)
      ensures Contents() == Resized(old(Contents()), newsize)
    {
      hide FlagAt, Flags, Bit, WithBit, Put;
      ghost var before := Contents();
      var tmpVector := new bv8[newsize + 1](_ => 0);
      var cmin := if cols < newsize then cols else newsize;
      NoFlags(tmpVector[..], newsize);
      for i := 0 to cmin
        invariant shadeFlagVector == old(shadeFlagVector) && cols == old(cols) && Contents() == before
        invariant forall p :: 0 <= p < newsize ==> Flags(tmpVector[..], newsize)[p] == (p < i && before[p])
      {
        var flag := GetShadeFlag(i);
        if flag {
          ghost var was := tmpVector[..];
          FlagRaised(was, newsize, i);
          tmpVector[i / 8] := tmpVector[i / 8] | Put(i % 8, true);
          assert tmpVector[..] == was[i / 8 := was[i / 8] | Put(i % 8, true)];
        }
      }
      shadeFlagVector := tmpVector;
      cols := newsize;
    }

    /** Sets or clears the flag of one column; a column that is not there is ignored. */
    method ShadeColumn(col: int, shade: bool)
      requires Valid() && 0 <= col
      modifies shadeFlagVector
      ensures Valid() && Contents() == if col < cols then old(Contents())[col := shade] else old(Contents())
    {
      hide FlagAt, Bit, Flags, Mask, Put;
      if col >= cols {
        return;
      }
      var mask := Mask(col % 8);
      FlagsSet(shadeFlagVector[..], cols, col, shade);
      shadeFlagVector[col / 8] := shadeFlagVector[col / 8] & mask;
      shadeFlagVector[col / 8] := shadeFlagVector[col / 8] | Put(col % 8, shade);
      assert shadeFlagVector[..]
          == old(shadeFlagVector[..])[col / 8 := WithBit(old(shadeFlagVector[col / 8]), col % 8, shade)];
    }

    method GetShadeFlag(pos: nat) returns (r: bool)
      requires Valid() && pos < cols
      ensures r == Contents()[pos]
    {
      r := (shadeFlagVector[pos / 8] >> (7 - pos % 8)) & 1 == 1;
    }

    /** Clears as many bytes as there are columns, which covers all flags. */
    method Clear()
      requires Valid()
      modifies shadeFlagVector
      ensures Valid() && Contents() == seq(cols, _ => false)
    {
      hide FlagAt;
      for i := 0 to cols
        invariant forall k :: 0 <= k < i ==> shadeFlagVector[k] == 0
      {
        shadeFlagVector[i] := 0;
      }
      forall p | 0 <= p < cols
        ensures !FlagAt(shadeFlagVector[..], p)
      {
        NoFlag(shadeFlagVector[..], p);
      }
    }

    method CountShadowedColumns() returns (acc: nat)
      requires Valid()
      ensures acc == |Shaded(Contents())|
    {
      hide Flags, FlagAt;
      acc := 0;
      for i := 0 to cols
        invariant acc == |Shaded(Contents()[..i])|
      {
        assert Contents()[..i+1][..i] == Contents()[..i];
        var flag := GetShadeFlag(i);
        if flag {
          acc := acc + 1;
        }
      }
      assert Contents()[..cols] == Contents();
    }

    /** Writes the magic number, the number of shaded columns, and the shaded columns. */
    method SaveShadows() returns (file: seq<int>)
      requires Valid()
      ensures file == [0xfedefed0, |Shaded(Contents())|] + Shaded(Contents())
    {
      hide Flags, FlagAt;
      var cnt := CountShadowedColumns();
      file := [SHD_MAGIC_NUMBER, cnt];
      for i := 0 to cols
        invariant file == [SHD_MAGIC_NUMBER, cnt] + Shaded(Contents()[..i])
      {
        assert Contents()[..i+1][..i] == Contents()[..i];
        var flag := GetShadeFlag(i);
        if flag {
          file := file + [i];
        }
      }
      assert Contents()[..cols] == Contents();
    }

    /** Reads what SaveShadows writes; anything without the magic number is refused. A file that ends
        early gives the same number for all that is missing. */
    method LoadShadows(file: seq<int>, atEnd: int)
      requires Valid()
      requires Recognized(file, atEnd) ==> forall i :: 0 <= i < Number(file, atEnd, 1) ==>
               0 <= ColumnsRead(file, atEnd)[i]
      modifies shadeFlagVector
      ensures Valid()
      ensures Contents() == if Recognized(file, atEnd) then Loaded(old(Contents()), ColumnsRead(file, atEnd))
                            else old(Contents())
      ensures |file| >= 2 && (file[0] != 0xfedefed0 || file[1] < 0) ==> Contents() == old(Contents())
      ensures |file| >= 2 && file[0] == 0xfedefed0 && 0 <= file[1] <= |file| - 2 ==>
                forall p :: 0 <= p < cols ==> Contents()[p] == (old(Contents())[p] || p in file[2..2 + file[1]])
      ensures |file| >= 2 && file[0] == 0xfedefed0 && |file| - 2 < file[1] ==>
                forall p :: 0 <= p < cols ==> Contents()[p] == (old(Contents())[p] || p in file[2..] || p == atEnd)
    {
      hide Flags, FlagAt;
      var mgc, cnt := Number(file, atEnd, 0), Number(file, atEnd, 1);
      if mgc != SHD_MAGIC_NUMBER || cnt < 0 {
        return;
      }
      ghost var columns := ColumnsRead(file, atEnd);
      ghost var before := Contents();
      for i := 0 to cnt
        invariant Contents() == Loaded(old(Contents()), columns[..i])
      {
        assert columns[..i+1][..i] == columns[..i];
        assert columns[i] == Number(file, atEnd, 2 + i);
        ShadeColumn(Number(file, atEnd, 2 + i), true);
      }
      assert columns[..cnt] == columns;
      forall p | 0 <= p < cols
        ensures Loaded(before, columns)[p] <==> before[p] || p in columns
      {
        LoadedFlags(before, columns, p);
      }
      ColumnsIn(file, atEnd);
    }

    /** Saves the flags, clears them, and loads the file: they are as before. */
    method SaveAndLoad(atEnd: int)
      requires Valid()
      modifies shadeFlagVector
      ensures Valid() && Contents() == old(Contents())
    {
      hide Flags, FlagAt, Loaded, Shaded;
      ghost var f := Contents();
      var file := SaveShadows();
      Clear();
      assert file[2..2 + |Shaded(f)|] == Shaded(f);
      assert Recognized(file, atEnd) && ColumnsRead(file, atEnd) == Shaded(f);
      LoadShadows(file, atEnd);
      SavedRestored(f);
    }
  }

  /** The i-th number that a stream gives. */
  function Number(file: seq<int>, atEnd: int, i: nat): int {
    if i < |file| then file[i] else atEnd
  }

  predicate Recognized(file: seq<int>, atEnd: int) {
    Number(file, atEnd, 0) == SHD_MAGIC_NUMBER && Number(file, atEnd, 1) >= 0
  }

  /** The columns that a file lists. */
  function ColumnsRead(file: seq<int>, atEnd: int): (r: seq<int>)
    requires Recognized(file, atEnd)
    ensures |r| == Number(file, atEnd, 1) && (|file| >= 2 + |r| ==> r == file[2..2 + |r|])
  {
    seq(Number(file, atEnd, 1), i requires 0 <= i => Number(file, atEnd, 2 + i))
  }

  /** A file that ends early lists the columns that are there, and then one and the same number. */
  lemma ColumnsIn(file: seq<int>, atEnd: int)
    requires Recognized(file, atEnd)
    ensures |file| >= 2 && |file| - 2 < file[1] ==>
              forall p: int :: p in ColumnsRead(file, atEnd) <==> p in file[2..] || p == atEnd
  {
    if |file| >= 2 && |file| - 2 < file[1] {
      var r, n := ColumnsRead(file, atEnd), |file| - 2;
      assert r[..n] == file[2..];
      assert r[n] == atEnd && forall i :: n <= i < |r| ==> r[i] == atEnd;
      assert r == r[..n] + r[n..];
    }
  }

  lemma NoFlags(s: seq<bv8>, n: nat)
    requires n <= 8 * |s| && forall k :: 0 <= k < |s| ==> s[k] == 0
    ensures forall p :: 0 <= p < n ==> !Flags(s, n)[p]
  {
    hide FlagAt;
    forall p | 0 <= p < n
      ensures !FlagAt(s, p)
    {
      NoFlag(s, p);
    }
  }

  /** A flag is raised by setting its bit. */
  lemma FlagRaised(s: seq<bv8>, n: nat, p: nat)
    requires n <= 8 * |s| && p < n
    ensures Flags(s[p / 8 := s[p / 8] | Put(p % 8, true)], n) == Flags(s, n)[p := true]
  {
    hide FlagAt, Flags, WithBit, Put;
    FlagsSet(s, n, p, true);
    BitOr(s[p / 8], p % 8);
  }

  lemma BitOr(b: bv8, k: nat)
    requires k < 8
    ensures b | Put(k, true) == WithBit(b, k, true)
  {
  }
}
