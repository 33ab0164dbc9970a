/** The index of a directory buffer: 32-bit record offsets from `base` to the end of the arena. */
module DirectoryIndex {
  import opened Memory
  import opened FileNames

  const DIR_INFO_SIZE: nat := 104
  const INVALID: nat := 0xFFFF_FFFF
  const INT_MAX: nat := 0x7FFF_FFFF

  /** A whole record, header and name, lies at offset `o`. */
  predicate IsRecord(rec: seq<Byte>, o: nat)
  {
    o + DIR_INFO_SIZE <= |rec| && DIR_INFO_SIZE <= U16At(rec, o) <= |rec| - o
  }

  function RecordAt(rec: seq<Byte>, o: nat): seq<Byte>
    requires IsRecord(rec, o)
  {
    rec[o..o + U16At(rec, o)]
  }

  /** The name in a record's bytes: the code units after the header. */
  function NameIn(r: seq<Byte>): (name: Wide)
  {
    if |r| < DIR_INFO_SIZE then []
    else seq((|r| - DIR_INFO_SIZE) / 2,
             k requires 0 <= k < (|r| - DIR_INFO_SIZE) / 2 => U16At(r, DIR_INFO_SIZE + 2 * k))
  }

  /** It is the name whose code units, low byte first, fill the record behind its header of 104 bytes, for names with
      any code units. */
  lemma NameInIs(r: seq<Byte>, name: Wide)
    requires |r| >= 104
    ensures NameIn(r) == name <==>
            104 + 2 * |name| <= |r| <= 105 + 2 * |name| &&
            forall k :: 0 <= k < |name| ==>
              r[104 + 2 * k] as int == name[k] % 0x100 && r[105 + 2 * k] as int == name[k] / 0x100
  {
    if 104 + 2 * |name| <= |r| <= 105 + 2 * |name| {
      forall k | 0 <= k < |name|
        ensures NameIn(r)[k] as int == r[104 + 2 * k] as int + 0x100 * r[105 + 2 * k] as int
        ensures NameIn(r)[k] == name[k] <==>
                r[104 + 2 * k] as int == name[k] % 0x100 && r[105 + 2 * k] as int == name[k] / 0x100
      {
      }
    } else {
      assert |NameIn(r)| == (|r| - 104) / 2;
    }
  }

  /** The record that a file system reports for a name, of zeros otherwise. */
  function DirInfo(name: Wide): (r: seq<Byte>)
    requires |name| < 0x7F00
    ensures |r| == DIR_INFO_SIZE + 2 * |name|
  {
    seq(DIR_INFO_SIZE + 2 * |name|, i requires 0 <= i < DIR_INFO_SIZE + 2 * |name| => DirInfoByte(name, i))
  }

  function DirInfoByte(name: Wide, i: nat): Byte
    requires |name| < 0x7F00 && i < DIR_INFO_SIZE + 2 * |name|
  {
    if i == 0 then (DIR_INFO_SIZE + 2 * |name|) % 0x100
    else if i == 1 then (DIR_INFO_SIZE + 2 * |name|) / 0x100
    else if i < DIR_INFO_SIZE then 0
    else
      var c := name[(i - DIR_INFO_SIZE) / 2];
      if i % 2 == 0 then c % 0x100 else c / 0x100
  }

  /** Its size and its name are read back. */
  lemma DirInfoIs(name: Wide)
    requires |name| < 0x7F00
    ensures U16At(DirInfo(name), 0) == 104 + 2 * |name| == |DirInfo(name)| && NameIn(DirInfo(name)) == name
  {
    var r := DirInfo(name);
    forall k | 0 <= k < |name|
      ensures r[104 + 2 * k] as int == name[k] % 0x100 && r[105 + 2 * k] as int == name[k] / 0x100
    {
      assert r[104 + 2 * k] == DirInfoByte(name, 104 + 2 * k) && r[105 + 2 * k] == DirInfoByte(name, 105 + 2 * k);
    }
    NameInIs(r, name);
  }

  /** A record that lies whole at an offset is found there, with its name. */
  lemma RecordIsFound(rec: seq<Byte>, o: nat, r: seq<Byte>)
    requires 104 <= |r| == r[0] as int + 0x100 * r[1] as int && o + |r| <= |rec| && rec[o..o + |r|] == r
    ensures IsRecord(rec, o) && RecordAt(rec, o) == r && NameAt(rec, o) == NameIn(r)
  {
    assert rec[o] == rec[o..o + |r|][0] && rec[o + 1] == rec[o..o + |r|][1];
  }

  function NameAt(rec: seq<Byte>, o: nat): Wide
  {
    if IsRecord(rec, o) then NameIn(RecordAt(rec, o)) else []
  }

  /** Records that agree on the names: `a` may stand before `b`. */
  ghost predicate Le(rec: seq<Byte>, a: nat, b: nat)
  {
    !NameLess(NameAt(rec, b), NameAt(rec, a))
  }

  lemma LeTotal(rec: seq<Byte>, a: nat, b: nat)
    ensures Le(rec, a, b) || Le(rec, b, a)
    ensures Le(rec, a, a)
  {
    NamesAreTotal(NameAt(rec, a), NameAt(rec, b));
    NamesAreTotal(NameAt(rec, a), NameAt(rec, a));
  }

  lemma LeTransitive(rec: seq<Byte>, a: nat, b: nat, c: nat)
    requires Le(rec, a, b) && Le(rec, b, c)
    ensures Le(rec, a, c)
  {
    NamesAreTransitive(NameAt(rec, a), NameAt(rec, b), NameAt(rec, c));
  }

  /** The offsets stored from `base` on. */
  function IndexOf(mem: seq<Byte>, base: nat): (s: seq<nat>)
    requires base <= |mem|
    ensures |s| == (|mem| - base) / 4
  {
    seq((|mem| - base) / 4, k requires 0 <= k < (|mem| - base) / 4 => U32At(mem, base + 4 * k))
  }

  ghost function Entries(mem: array<Byte>, base: nat): (s: seq<nat>)
    requires base <= mem.Length
    reads mem
    ensures |s| == (mem.Length - base) / 4
  {
    IndexOf(mem[..], base)
  }

  method GetEntry(mem: array<Byte>, base: nat, k: nat) returns (v: nat)
    requires base <= mem.Length && k < (mem.Length - base) / 4
    ensures v == Entries(mem, base)[k] < 0x1_0000_0000
  {
    var o := base + 4 * k;
    v := mem[o] as int + 0x100 * mem[o + 1] as int + 0x1_0000 * mem[o + 2] as int + 0x100_0000 * mem[o + 3] as int;
  }

  method SetEntry(mem: array<Byte>, base: nat, k: nat, v: nat)
    requires base <= mem.Length && k < (mem.Length - base) / 4 && v < 0x1_0000_0000
    modifies mem
    ensures mem[..base] == old(mem[..base])
    ensures Entries(mem, base) == old(Entries(mem, base))[k := v]
  {
    var bytes := U32Bytes(v);
    var o := base + 4 * k;
    mem[o], mem[o + 1], mem[o + 2], mem[o + 3] := bytes[0], bytes[1], bytes[2], bytes[3];
    forall j | 0 <= j < (mem.Length - base) / 4
      ensures Entries(mem, base)[j] == old(Entries(mem, base))[k := v][j]
    {
      if j == k {
        assert U32At(mem[..], o) == U32At(bytes, 0);
      } else {
        assert j < k || j > k;
        assert U32At(mem[..], base + 4 * j) == U32At(old(mem[..]), base + 4 * j);
      }
    }
  }

  /** Compares two records by name. */
  method Less(mem: array<Byte>, base: nat, a: nat, b: nat) returns (less: bool)
    requires base <= mem.Length && IsRecord(mem[..base], a) && IsRecord(mem[..base], b)
    ensures less <==> !Le(mem[..base], b, a)
  {
    var rec := mem[..base];
    var c := FileNameCmp(NameAt(rec, a), NameAt(rec, b));
    less := 0 > c;
  }
}
