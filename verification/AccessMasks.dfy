/** Access masks: which rights are asked of whom, and what is left of a grant.  A 32-bit mask is the set of its one
    bits. */
module AccessMasks {
  type Bit = b: nat | b < 32
  type Mask = set<Bit>

  const MAXIMUM_ALLOWED: Bit := 25
  const DELETE: Bit := 16
  const FILE_READ_ATTRIBUTES: Bit := 7
  const FILE_DELETE_CHILD: Bit := 6
  const FILE_TRAVERSE: Bit := 5
  const FILE_APPEND_DATA: Bit := 2                  // also FILE_ADD_SUBDIRECTORY
  const FILE_WRITE_DATA: Bit := 1
  const FILE_LIST_DIRECTORY: Bit := 0
  const FILE_ALL_ACCESS: Mask := {0, 1, 2, 3, 4, 5, 6, 7, 8, 16, 17, 18, 19, 20}
  const WRITE_RIGHTS: Mask := {FILE_WRITE_DATA, FILE_APPEND_DATA, FILE_DELETE_CHILD}

  const READONLY: Bit := 0                          // file attributes
  const DIRECTORY: Bit := 4
  const REPARSE_POINT: Bit := 10

  const DIRECTORY_FILE: Bit := 0                    // create options
  const NON_DIRECTORY_FILE: Bit := 6
  const DELETE_ON_CLOSE: Bit := 12
  const OPEN_REPARSE_POINT: Bit := 21

  function Power(k: nat): (p: nat)
    ensures p > 0
  {
    if k == 0 then 1 else 2 * Power(k - 1)
  }

  /** A number in place of a mask. */
  function BitsOf(n: nat): Mask
  {
    set k: Bit | 0 <= k < 32 && n / Power(k) % 2 == 1
  }

  /** The number of the first `k` bits of a mask. */
  function NumberOf(mask: Mask, k: nat): nat
    requires k <= 32
  {
    if k == 0 then 0 else NumberOf(mask, k - 1) + if k - 1 in mask then Power(k - 1) else 0
  }

  lemma ModDoubles(n: nat, p: nat)
    requires p > 0
    ensures n % (2 * p) == n % p + if n / p % 2 == 1 then p else 0
  {
    var q, h := n / p, n / p / 2;
    var rest := n % p + if q % 2 == 1 then p else 0;
    assert n == p * q + n % p && q == 2 * h + q % 2;
    assert p * q == 2 * p * h + p * (q % 2);
    assert n == 2 * p * h + rest && 0 <= rest < 2 * p;
    ModIs(n, 2 * p, h, rest);
  }

  lemma ModIs(n: nat, d: nat, h: nat, rest: nat)
    requires d > 0 && n == d * h + rest && rest < d
    ensures n % d == rest
  {
    var k := n / d - h;
    assert n == d * (n / d) + n % d;
    assert d * k == rest - n % d;
    Multiples(d, k);
  }

  lemma Multiples(d: nat, k: int)
    requires d > 0
    ensures k >= 1 ==> d * k >= d
    ensures k <= -1 ==> d * k + d <= 0
  {
  }

  /** A number is that of its bits. */
  lemma {:induction false} BitsMakeNumber(n: nat, k: nat)
    requires k <= 32
    ensures NumberOf(BitsOf(n), k) == n % Power(k)
  {
    if k > 0 {
      BitsMakeNumber(n, k - 1);
      ModDoubles(n, Power(k - 1));
    }
  }

  /** The numbers that the bits stand for. */
  lemma BitsAre()
    ensures Power(MAXIMUM_ALLOWED) == 0x0200_0000 && Power(DELETE) == 0x1_0000
    ensures Power(FILE_READ_ATTRIBUTES) == 0x80 && Power(FILE_DELETE_CHILD) == 0x40 && Power(FILE_TRAVERSE) == 0x20
    ensures Power(FILE_APPEND_DATA) == 4 && Power(FILE_WRITE_DATA) == 2 && Power(FILE_LIST_DIRECTORY) == 1
    ensures Power(READONLY) == 1 && Power(DIRECTORY) == 0x10 && Power(REPARSE_POINT) == 0x400
    ensures Power(DIRECTORY_FILE) == 1 && Power(NON_DIRECTORY_FILE) == 0x40
    ensures Power(DELETE_ON_CLOSE) == 0x1000 && Power(OPEN_REPARSE_POINT) == 0x20_0000
    ensures forall b: Bit :: b in FILE_ALL_ACCESS <==> b <= 8 || 16 <= b <= 20
    ensures WRITE_RIGHTS == {1, 2, 6}
  {
    assert Power(4) == 0x10 && Power(8) == 0x100;
    assert Power(12) == 0x1000;
    assert Power(16) == 0x1_0000;
    assert Power(20) == 0x10_0000;
    assert Power(24) == 0x100_0000;
    assert Power(0) == 1 && Power(1) == 2 && Power(2) == 4 && Power(5) == 0x20 && Power(6) == 0x40;
  }

  lemma {:induction false} PowerGrows(j: nat, k: nat)
    requires j <= k
    ensures Power(j) <= Power(k)
    decreases k
  {
    if j < k { PowerGrows(j, k - 1); }
  }

  function GrantAll(desired: Mask): Mask
  {
    if MAXIMUM_ALLOWED in desired then FILE_ALL_ACCESS else desired
  }

  /** Rights that a parent directory can make up for. */
  predicate ParentCanHelp(desired: Mask)
  {
    MAXIMUM_ALLOWED in desired || DELETE in desired || FILE_READ_ATTRIBUTES in desired
  }

  /** What is asked of the parent then. */
  function ParentDesired(desired: Mask): Mask
  {
    if MAXIMUM_ALLOWED in desired then {FILE_DELETE_CHILD, FILE_LIST_DIRECTORY}
    else (if DELETE in desired then {FILE_DELETE_CHILD} else {}) +
         (if FILE_READ_ATTRIBUTES in desired then {FILE_LIST_DIRECTORY} else {})
  }

  /** What the parent's rights are worth. */
  function FromParent(parent: Mask): Mask
  {
    (if FILE_DELETE_CHILD in parent then {DELETE} else {}) +
    (if FILE_LIST_DIRECTORY in parent then {FILE_READ_ATTRIBUTES} else {})
  }

  /** The rights asked of the parent cannot lead to a second fallback. */
  lemma ParentRightsDoNotRecur(desired: Mask)
    ensures !ParentCanHelp(ParentDesired(desired))
  {
  }

  lemma AskedOfParent(desired: Mask)
    requires MAXIMUM_ALLOWED !in desired
    ensures MAXIMUM_ALLOWED !in ParentDesired(desired)
    ensures FromParent(ParentDesired(desired)) <= desired
  {
  }

  /** What an open asks for, and what is left of the grant. */
  function OpenAsks(createOptions: Mask, desired: Mask): Mask
  {
    desired + (if DELETE_ON_CLOSE in createOptions then {DELETE} else {})
  }

  function OpenGrant(desired: Mask, requestGrant: Mask, granted: Mask): Mask
  {
    (if MAXIMUM_ALLOWED in desired then granted else granted - ({DELETE} - desired)) + requestGrant
  }

  /** What an overwrite asks for; a supersede, disposition 0 in the top byte, asks for DELETE instead of write
      access. */
  function OverwriteAsks(createOptions: Mask, desired: Mask): Mask
  {
    desired + (if forall k :: 24 <= k < 32 ==> k !in createOptions then {DELETE} else {FILE_WRITE_DATA}) +
    (if DELETE_ON_CLOSE in createOptions then {DELETE} else {})
  }

  /** A new stream asks the main file for write access. */
  function StreamAsks(createOptions: Mask, desired: Mask): Mask
  {
    desired + {FILE_WRITE_DATA} + (if DELETE_ON_CLOSE in createOptions then {DELETE} else {})
  }

  function OverwriteGrant(desired: Mask, requestGrant: Mask, granted: Mask): Mask
  {
    (if MAXIMUM_ALLOWED in desired then granted else granted - ({DELETE, FILE_WRITE_DATA} - desired)) + requestGrant
  }

  /** What each of the three asks for, in numbers. */
  lemma AskedFor(createOptions: Mask, desired: Mask)
    ensures var deletes: Mask := if 12 in createOptions then {16} else {};
            && OpenAsks(createOptions, desired) == desired + deletes
            && StreamAsks(createOptions, desired) == desired + {1} + deletes
            && OverwriteAsks(createOptions, desired) ==
                 desired + (if forall k :: 24 <= k < 32 ==> k !in createOptions then {16} else {1}) + deletes
  {
  }

  /** Which of the granted rights are left in the end: all but the right to delete, and for an overwrite and a stream to
      write data, unless they are desired, or the most that is allowed is. */
  lemma RightsLeft(desired: Mask, requestGrant: Mask, granted: Mask, right: Bit)
    ensures var open := OpenGrant(desired, requestGrant, granted);
            var overwrite := OverwriteGrant(desired, requestGrant, granted);
            && (right in open <==>
                  right in requestGrant || (right in granted && (right == 16 ==> right in desired || 25 in desired)))
            && (right in overwrite <==>
                  right in requestGrant ||
                  (right in granted && (right == 16 || right == 1 ==> right in desired || 25 in desired)))
  {
  }

  /** What is asked for more than is desired is taken back; of what the parent brings in addition, DELETE is too. */
  lemma OpenIsTakenBack(createOptions: Mask, desired: Mask, requestGrant: Mask, extra: Mask)
    requires MAXIMUM_ALLOWED !in desired && extra <= {DELETE, FILE_READ_ATTRIBUTES}
    ensures MAXIMUM_ALLOWED !in OpenAsks(createOptions, desired)
    ensures OpenGrant(desired, requestGrant, OpenAsks(createOptions, desired)) == desired + requestGrant
    ensures OpenGrant(desired, requestGrant, OpenAsks(createOptions, desired) + extra) ==
            desired + requestGrant + (extra - {DELETE})
  {
  }

  lemma OverwriteIsTakenBack(createOptions: Mask, desired: Mask, requestGrant: Mask, extra: Mask)
    requires MAXIMUM_ALLOWED !in desired && extra <= {DELETE, FILE_READ_ATTRIBUTES}
    ensures MAXIMUM_ALLOWED !in OverwriteAsks(createOptions, desired)
    ensures OverwriteGrant(desired, requestGrant, OverwriteAsks(createOptions, desired)) == desired + requestGrant
    ensures OverwriteGrant(desired, requestGrant, OverwriteAsks(createOptions, desired) + extra) ==
            desired + requestGrant + (extra - {DELETE})
  {
  }

  lemma StreamIsTakenBack(createOptions: Mask, desired: Mask, requestGrant: Mask, extra: Mask)
    requires MAXIMUM_ALLOWED !in desired && extra <= {DELETE, FILE_READ_ATTRIBUTES}
    ensures MAXIMUM_ALLOWED !in StreamAsks(createOptions, desired)
    ensures OverwriteGrant(desired, requestGrant, StreamAsks(createOptions, desired)) == desired + requestGrant
    ensures OverwriteGrant(desired, requestGrant, StreamAsks(createOptions, desired) + extra) ==
            desired + requestGrant + (extra - {DELETE})
  {
  }
}
