/** Bytes, UTF-16 code units and the little-endian integers the library keeps in byte buffers. */
module Memory {
  datatype Option<+T> = None | Some(value: T)

  type Byte = b: int | 0 <= b < 0x100
  /** A `WCHAR`: a 16-bit code unit.  (Dafny's `char` has no surrogates.) */
  type WChar = c: int | 0 <= c < 0x1_0000
  type Wide = seq<WChar>

  const NUL: WChar := 0
  const SOH: WChar := 1
  const DOT: WChar := 0x2E
  const COLON: WChar := 0x3A
  const BACKSLASH: WChar := 0x5C

  /** The code units that have a meaning: NUL, U+0001, full stop, colon and backslash. */
  lemma CodeUnitsAre()
    ensures NUL == 0 && SOH == 1 && DOT == 0x2E && COLON == 0x3A && BACKSLASH == 0x5C
  {
  }

  /** The 16-bit little-endian number at offset `o`. */
  function U16At(mem: seq<Byte>, o: nat): nat
    requires o + 2 <= |mem|
  {
    mem[o] as int + 0x100 * mem[o + 1] as int
  }

  /** The 32-bit little-endian number at offset `o`. */
  function U32At(mem: seq<Byte>, o: nat): nat
    requires o + 4 <= |mem|
  {
    mem[o] as int + 0x100 * mem[o + 1] as int + 0x1_0000 * mem[o + 2] as int + 0x100_0000 * mem[o + 3] as int
  }

  lemma SliceOfSlice<T>(s: seq<T>, a: nat, b: nat, i: nat, j: nat)
    requires a <= b <= |s| && i <= j <= b - a
    ensures s[a..b][i..j] == s[a + i..a + j]
  {
    forall k | 0 <= k < j - i ensures s[a..b][i..j][k] == s[a + i..a + j][k] {
      assert s[a..b][i + k] == s[a + i + k];
    }
  }

  /** Sequences that agree up to `n` agree on every part of that. */
  lemma AgreeWithin<T>(s: seq<T>, t: seq<T>, n: nat, i: nat, j: nat)
    requires i <= j <= n <= |s| && n <= |t| && s[..n] == t[..n]
    ensures s[i..j] == t[i..j] && s[..j] == t[..j]
  {
    forall k | 0 <= k < j ensures s[k] == t[k] { assert s[..n][k] == t[..n][k]; }
  }

  /** Sequences that agree from `m` on agree from everywhere behind that. */
  lemma AgreeBehind<T>(s: seq<T>, t: seq<T>, m: nat, n: nat)
    requires m <= n <= |s| == |t| && s[m..] == t[m..]
    ensures s[n..] == t[n..]
  {
    forall k | n <= k < |s| ensures s[k] == t[k] { assert s[m..][k - m] == t[m..][k - m]; }
  }

  lemma SliceOfTake<T>(s: seq<T>, n: nat, i: nat, j: nat)
    requires i <= j <= n <= |s|
    ensures s[..n][i..j] == s[i..j]
  {
    forall k | 0 <= k < j - i ensures s[..n][i..j][k] == s[i..j][k] {
      assert s[..n][i + k] == s[i + k];
    }
  }

  function U32Bytes(v: nat): (bytes: seq<Byte>)
    requires v < 0x1_0000_0000
    ensures |bytes| == 4 && U32At(bytes, 0) == v
  {
    var v1 := v / 0x100;
    var v2 := v1 / 0x100;
    var v3 := v2 / 0x100;
    [v % 0x100, v1 % 0x100, v2 % 0x100, v3]
  }

  /** Rounds `x` up to a multiple of 8, the default alignment. */
  function AlignUp(x: nat): (r: nat)
    ensures x <= r < x + 8 && r % 8 == 0
  {
    (x + 7) / 8 * 8
  }

  /** Rounds `x` up to a multiple of 4. */
  function AlignUp4(x: nat): (r: nat)
    ensures x <= r < x + 4 && r % 4 == 0
  {
    (x + 3) / 4 * 4
  }

  /** The alignment macro as it is written, on a 32-bit word: a multiple of 8 that is the least one not below `x`. */
  lemma AlignUpMask(x: bv32)
    requires x <= 0xFFFF_FFF8
    ensures var r := (x + 7) & !7; x <= r && r - x < 8 && r & 7 == 0
  {
  }
}
