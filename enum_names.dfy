/**
 * How the runtime's Enum.Parse (ignoreCase: true) reads member names: the text is split
 * on ',', each piece is trimmed and matched against the names ignoring case, and the
 * values of the matched members are ORed as 32-bit patterns, then narrowed to an Int32.
 * Members are (name, value) pairs in declaration order.
 */
module EnumNames {
  import opened Wrappers
  import opened Strings

  /** The first member whose name equals `s` ignoring case. */
  function NameMatch(members: seq<(string, int)>, s: string): (r: Option<nat>)
    ensures r.Some? ==> r.value < |members| && EqualsIgnoreCase(members[r.value].0, s)
  {
    if members == [] then None
    else if EqualsIgnoreCase(members[0].0, s) then Some(0)
    else match NameMatch(members[1..], s)
      case None => None
      case Some(k) => Some(k + 1)
  }

  /** No member before the match (none at all when there is no match) has the name. */
  lemma {:induction false} NameMatchFirst(members: seq<(string, int)>, s: string)
    ensures var r := NameMatch(members, s);
      forall i :: 0 <= i < |members| && (r.None? || i < r.value) ==> !EqualsIgnoreCase(members[i].0, s)
    decreases |members|
  {
    if members != [] && !EqualsIgnoreCase(members[0].0, s) {
      NameMatchFirst(members[1..], s);
      assert forall i :: 1 <= i < |members| ==> members[i] == members[1..][i - 1];
    }
  }

  /** An Int32 as its 32-bit two's complement pattern. */
  function Bits32(n: int): (b: nat)
    ensures b < 0x1_0000_0000
  {
    n % 0x1_0000_0000
  }

  /** The low 32 bits of a pattern read as an Int32 (Enum.ToObject's unchecked narrowing). */
  function FromBits32(b: nat): (n: int)
    ensures -0x8000_0000 <= n <= 0x7FFF_FFFF
    ensures Bits32(n) == b % 0x1_0000_0000
  {
    var w := b % 0x1_0000_0000;
    if w > 0x7FFF_FFFF then w - 0x1_0000_0000 else w
  }

  /** Bitwise OR of two naturals, one binary digit at a time. */
  function BitOr(a: nat, b: nat): nat
    decreases a + b
  {
    if a == 0 then b
    else if b == 0 then a
    else 2 * BitOr(a / 2, b / 2) + (if a % 2 == 1 || b % 2 == 1 then 1 else 0)
  }

  /** The OR of the values' bit patterns: the reference for a list of flag names. */
  function OrAll(values: seq<int>): nat {
    if values == [] then 0 else BitOr(Bits32(values[0]), OrAll(values[1..]))
  }

  /**
   * The comma-separated pieces of enum text, each trimmed and matched against the member
   * names ignoring case: the OR of the matched values, or None as soon as a piece (an
   * empty one included) names no member.
   */
  function NamesValue(members: seq<(string, int)>, pieces: seq<string>): (r: Option<nat>)
    decreases |pieces|
  {
    if pieces == [] then Some(0)
    else match NameMatch(members, Trim(pieces[0]))
      case None => None
      case Some(i) =>
        var rest := NamesValue(members, pieces[1..]);
        if rest.None? then None else Some(BitOr(Bits32(members[i].1), rest.value))
  }

  /** The names are read exactly when every piece names a member. */
  lemma {:induction false} NamesValueSome(members: seq<(string, int)>, pieces: seq<string>)
    ensures NamesValue(members, pieces).Some? <==>
            forall k :: 0 <= k < |pieces| ==> NameMatch(members, Trim(pieces[k])).Some?
    decreases |pieces|
  {
    if pieces != [] {
      var rest := pieces[1..];
      NamesValueSome(members, rest);
      if NameMatch(members, Trim(pieces[0])).Some? {
        assert NamesValue(members, pieces).Some? <==> NamesValue(members, rest).Some?;
        assert forall k :: 1 <= k < |pieces| ==> rest[k - 1] == pieces[k];
      }
    }
  }

  /** The name path of ParseEnumValue: the comma-separated names' OR, as an Int32. */
  function ParseEnumNames(members: seq<(string, int)>, s: string): (r: Option<int>)
    ensures r.Some? ==> -0x8000_0000 <= r.value <= 0x7FFF_FFFF
  {
    match NamesValue(members, Split(s, ','))
    case Some(b) => Some(FromBits32(b))
    case None => None
  }

  /** Text without a comma is a single piece. */
  lemma SplitWithoutComma(s: string)
    requires ',' !in s
    ensures Split(s, ',') == [s]
  {
    assert IndexOfChar(s, ',') == -1;
  }

  /** A single piece naming a member reads as that member's bit pattern. */
  lemma NamesValueOfOne(members: seq<(string, int)>, piece: string, i: nat)
    requires NameMatch(members, Trim(piece)) == Some(i)
    ensures NamesValue(members, [piece]) == Some(Bits32(members[i].1))
  {
    assert [piece][1..] == [];
    assert NamesValue(members, []) == Some(0);
    assert BitOr(Bits32(members[i].1), 0) == Bits32(members[i].1);
  }

  /** An Int32's bit pattern reads back as the Int32. */
  lemma FromBitsOfBits(n: int)
    requires -0x8000_0000 <= n <= 0x7FFF_FFFF
    ensures FromBits32(Bits32(n)) == n
  {
  }

  /** The names of the members at the given indexes. */
  function NamesAt(members: seq<(string, int)>, idx: seq<nat>): (r: seq<string>)
    requires forall k :: 0 <= k < |idx| ==> idx[k] < |members|
    ensures |r| == |idx| && forall k :: 0 <= k < |idx| ==> r[k] == members[idx[k]].0
  {
    seq(|idx|, k requires 0 <= k < |idx| => members[idx[k]].0)
  }

  /** The values of the members at the given indexes. */
  function ValuesAt(members: seq<(string, int)>, idx: seq<nat>): (r: seq<int>)
    requires forall k :: 0 <= k < |idx| ==> idx[k] < |members|
    ensures |r| == |idx| && forall k :: 0 <= k < |idx| ==> r[k] == members[idx[k]].1
  {
    seq(|idx|, k requires 0 <= k < |idx| => members[idx[k]].1)
  }

  /** Pieces that each name a member, after trimming and ignoring case, read as the OR of
   *  those members' bit patterns. */
  lemma {:induction false} NamesValueOfPieces(members: seq<(string, int)>, pieces: seq<string>, idx: seq<nat>)
    requires |pieces| == |idx|
    requires forall k :: 0 <= k < |idx| ==> idx[k] < |members| && NameMatch(members, Trim(pieces[k])) == Some(idx[k])
    ensures NamesValue(members, pieces) == Some(OrAll(ValuesAt(members, idx)))
    decreases |pieces|
  {
    if pieces != [] {
      PiecesTail(members, pieces, idx);
      NamesValueOfPieces(members, pieces[1..], idx[1..]);
      OrAllCons(members, idx);
      NamesValueCons(members, pieces, idx[0]);
    }
  }

  /** The pieces after the first still name the members at the later indexes. */
  lemma PiecesTail(members: seq<(string, int)>, pieces: seq<string>, idx: seq<nat>)
    requires pieces != [] && |pieces| == |idx|
    requires forall k :: 0 <= k < |idx| ==> idx[k] < |members| && NameMatch(members, Trim(pieces[k])) == Some(idx[k])
    ensures forall k :: 0 <= k < |idx[1..]| ==>
      idx[1..][k] < |members| && NameMatch(members, Trim(pieces[1..][k])) == Some(idx[1..][k])
  {
    forall k | 0 <= k < |idx[1..]|
      ensures idx[1..][k] < |members| && NameMatch(members, Trim(pieces[1..][k])) == Some(idx[1..][k])
    {
      assert pieces[1..][k] == pieces[k + 1] && idx[1..][k] == idx[k + 1];
    }
  }

  /** The OR over the values at the indexes takes the first one and then the rest. */
  lemma OrAllCons(members: seq<(string, int)>, idx: seq<nat>)
    requires idx != [] && forall k :: 0 <= k < |idx| ==> idx[k] < |members|
    ensures OrAll(ValuesAt(members, idx)) == BitOr(Bits32(members[idx[0]].1), OrAll(ValuesAt(members, idx[1..])))
  {
    assert ValuesAt(members, idx)[1..] == ValuesAt(members, idx[1..]);
  }

  /** One step of NamesValue: a first piece naming member i ORs in that member's value. */
  lemma NamesValueCons(members: seq<(string, int)>, pieces: seq<string>, i: nat)
    requires pieces != [] && NameMatch(members, Trim(pieces[0])) == Some(i)
    requires NamesValue(members, pieces[1..]).Some?
    ensures NamesValue(members, pieces) == Some(BitOr(Bits32(members[i].1), NamesValue(members, pieces[1..]).value))
  {
  }

  /** The OR of a value with itself is its bit pattern. */
  lemma OrAllOfTwice(v: int)
    ensures OrAll([v, v]) == Bits32(v)
  {
    var b := Bits32(v);
    assert [v, v][1..] == [v] && [v][1..] == [];
    assert OrAll([v]) == BitOr(b, 0) == b;
    BitOrSelf(b);
  }

  /** OR is idempotent. */
  lemma {:induction false} BitOrSelf(a: nat)
    ensures BitOr(a, a) == a
    decreases a
  {
    if a != 0 {
      BitOrSelf(a / 2);
    }
  }
}
