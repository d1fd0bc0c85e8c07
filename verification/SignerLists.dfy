/** The published signer list: its TLV wire form and its comparison. */
module SignerLists {
  import opened Names

  // ----- Variable-size numbers and blocks of the NDN packet format, version 0.3 -----

  const NUMBER_LIMIT: nat := 0x1_0000_0000_0000_0000
  const TYPE_LIMIT: nat := 0x1_0000_0000
  const NAME_TYPE: nat := 7
  const SIGNER_LIST_TYPE: nat := 200
  const COMPONENT_MAX: nat := 65535

  datatype Block = Block(kind: nat, value: Bytes)

  function BigEndian(n: nat, width: nat): (s: Bytes)
    ensures |s| == width
  {
    if width == 0 then [] else BigEndian(n / 256, width - 1) + [n % 256]
  }

  function FromBigEndian(s: Bytes): nat {
    if s == [] then 0 else FromBigEndian(s[..|s| - 1]) * 256 + s[|s| - 1]
  }

  function EncodeNumber(n: nat): (s: Bytes)
    ensures s != []
  {
    if n < 253 then [n]
    else if n < 0x1_0000 then [253] + BigEndian(n, 2)
    else if n < 0x1_0000_0000 then [254] + BigEndian(n, 4)
    else [255] + BigEndian(n, 8)
  }

  /** The number at the head of the buffer and what follows it. */
  function DecodeNumber(s: Bytes): (r: Option<(nat, Bytes)>)
    ensures r.Some? ==> |r.value.1| < |s|
  {
    if s == [] then None else
      var width := if s[0] < 253 then 0 else if s[0] == 253 then 2 else if s[0] == 254 then 4 else 8;
      if |s| < 1 + width then None
      else if width == 0 then Some((s[0], s[1..]))
      else Some((FromBigEndian(s[1..1 + width]), s[1 + width..]))
  }

  function EncodeBlock(b: Block): (s: Bytes)
    ensures s != []
  {
    EncodeNumber(b.kind) + (EncodeNumber(|b.value|) + b.value)
  }

  function DecodeBlock(s: Bytes): (r: Option<(Block, Bytes)>)
    ensures r.Some? ==> |r.value.1| < |s|
  {
    match DecodeNumber(s)
    case None => None
    case Some((kind, afterKind)) =>
      match DecodeNumber(afterKind)
      case None => None
      case Some((size, rest)) =>
        if kind == 0 || kind >= TYPE_LIMIT || |rest| < size then None
        else Some((Block(kind, rest[..size]), rest[size..]))
  }

  /** Consecutive blocks. */
  function EncodeBlocks(bs: seq<Block>): Bytes {
    if bs == [] then [] else EncodeBlock(bs[0]) + EncodeBlocks(bs[1..])
  }

  /** The elements of a block's value; None where parsing throws. */
  function ParseBlocks(s: Bytes): Option<seq<Block>>
    decreases |s|
  {
    if s == [] then Some([]) else
      match DecodeBlock(s)
      case None => None
      case Some((b, rest)) =>
        match ParseBlocks(rest)
        case None => None
        case Some(bs) => Some([b] + bs)
  }

  lemma {:induction false} BigEndianRoundTrip(n: nat, width: nat)
    ensures n < Pow256(width) ==> FromBigEndian(BigEndian(n, width)) == n
  {
    if width > 0 {
      BigEndianRoundTrip(n / 256, width - 1);
      assert BigEndian(n, width)[..width - 1] == BigEndian(n / 256, width - 1);
    }
  }

  function Pow256(k: nat): nat { if k == 0 then 1 else 256 * Pow256(k - 1) }

  lemma Pow256Values()
    ensures Pow256(2) == 0x1_0000 && Pow256(4) == 0x1_0000_0000 && Pow256(8) == NUMBER_LIMIT
  {
    assert Pow256(2) == 256 * Pow256(1) && Pow256(1) == 256 * Pow256(0);
    assert Pow256(4) == 256 * Pow256(3) && Pow256(3) == 256 * Pow256(2);
    assert Pow256(6) == 256 * Pow256(5) && Pow256(5) == 256 * Pow256(4);
    assert Pow256(8) == 256 * Pow256(7) && Pow256(7) == 256 * Pow256(6);
  }

  lemma NumberRoundTrip(n: nat, rest: Bytes)
    requires n < NUMBER_LIMIT
    ensures DecodeNumber(EncodeNumber(n) + rest) == Some((n, rest))
  {
    Pow256Values();
    var width := if n < 253 then 0 else if n < 0x1_0000 then 2 else if n < 0x1_0000_0000 then 4 else 8;
    var s := EncodeNumber(n) + rest;
    assert s[1 + width..] == rest;
    if width > 0 {
      BigEndianRoundTrip(n, width);
      assert s[1..1 + width] == BigEndian(n, width);
    }
  }

  lemma {:induction false} BigEndianBound(s: Bytes)
    ensures FromBigEndian(s) < Pow256(|s|)
  {
    if s != [] { BigEndianBound(s[..|s| - 1]); }
  }

  /** The encoding is the shortest one: no shorter text decodes to the number. */
  lemma EncodingIsShortest(n: nat, s: Bytes, rest: Bytes)
    requires n < NUMBER_LIMIT && DecodeNumber(s) == Some((n, rest))
    ensures |EncodeNumber(n)| <= |s| - |rest|
  {
    Pow256Values();
    var width := if s[0] < 253 then 0 else if s[0] == 253 then 2 else if s[0] == 254 then 4 else 8;
    if width > 0 { BigEndianBound(s[1..1 + width]); }
  }

  ghost predicate ValidBlock(b: Block) { 0 < b.kind < TYPE_LIMIT && |b.value| < NUMBER_LIMIT }

  lemma BlockRoundTrip(b: Block, rest: Bytes)
    requires ValidBlock(b)
    ensures DecodeBlock(EncodeBlock(b) + rest) == Some((b, rest))
  {
    var tail := EncodeNumber(|b.value|) + (b.value + rest);
    assert EncodeBlock(b) + rest == EncodeNumber(b.kind) + tail;
    NumberRoundTrip(b.kind, tail);
    NumberRoundTrip(|b.value|, b.value + rest);
    assert (b.value + rest)[..|b.value|] == b.value && (b.value + rest)[|b.value|..] == rest;
  }

  lemma {:induction false} BlocksRoundTrip(bs: seq<Block>)
    requires forall b :: b in bs ==> ValidBlock(b)
    ensures ParseBlocks(EncodeBlocks(bs)) == Some(bs)
  {
    if bs != [] {
      BlockRoundTrip(bs[0], EncodeBlocks(bs[1..]));
      BlocksRoundTrip(bs[1..]);
      assert [bs[0]] + bs[1..] == bs;
    }
  }

  // ----- Names and signer lists -----

  function ComponentBlocks(n: Name): (bs: seq<Block>)
    ensures |bs| == |n|
  {
    seq(|n|, i requires 0 <= i < |n| => Block(n[i].kind, n[i].value))
  }

  function ToName(bs: seq<Block>): (n: Name)
    ensures |n| == |bs|
  {
    seq(|bs|, i requires 0 <= i < |bs| => Component(bs[i].kind, bs[i].value))
  }

  function NameBlock(n: Name): Block { Block(NAME_TYPE, EncodeBlocks(ComponentBlocks(n))) }

  function NameBlocks(names: seq<Name>): (bs: seq<Block>)
    ensures |bs| == |names|
  {
    seq(|names|, i requires 0 <= i < |names| => NameBlock(names[i]))
  }

  function ListBlock(names: seq<Name>): Block { Block(SIGNER_LIST_TYPE, EncodeBlocks(NameBlocks(names))) }

  /** A name from an element; None where the program throws. */
  function DecodeName(b: Block): Option<Name> {
    if b.kind != NAME_TYPE then None else
      match ParseBlocks(b.value) case None => None case Some(bs) => Some(ToName(bs))
  }

  /** The names up to the first element that is not one, and whether all were. */
  function DecodeNames(bs: seq<Block>): (seq<Name>, bool) {
    if bs == [] then ([], true) else
      match DecodeName(bs[0])
      case None => ([], false)
      case Some(n) => var (rest, ok) := DecodeNames(bs[1..]); ([n] + rest, ok)
  }

  function DecodeList(wire: Block): Option<seq<Name>> {
    if wire.kind != SIGNER_LIST_TYPE then None else
      match ParseBlocks(wire.value)
      case None => None
      case Some(bs) => var (names, ok) := DecodeNames(bs); if ok then Some(names) else None
  }

  /** Component types are in range and every block fits a length number. */
  ghost predicate Encodable(names: seq<Name>) {
    && |ListBlock(names).value| < NUMBER_LIMIT
    && forall n :: n in names ==> EncodableName(n)
  }

  ghost predicate EncodableName(n: Name) {
    && |NameBlock(n).value| < NUMBER_LIMIT
    && forall c :: c in n ==> 0 < c.kind <= COMPONENT_MAX && |c.value| < NUMBER_LIMIT
  }

  /** What decoding a list accepts: a list block whose elements are names, one for one. */
  lemma DecodeListIff(wire: Block, names: seq<Name>)
    ensures DecodeList(wire) == Some(names)
       <==> wire.kind == SIGNER_LIST_TYPE && ParseBlocks(wire.value).Some?
            && ElementsAre(ParseBlocks(wire.value).value, names)
  {
    if ParseBlocks(wire.value).Some? { DecodeNamesIff(ParseBlocks(wire.value).value, names); }
  }

  ghost predicate ElementsAre(bs: seq<Block>, names: seq<Name>) {
    |bs| == |names| && forall i :: 0 <= i < |bs| ==> DecodeName(bs[i]) == Some(names[i])
  }

  lemma {:induction false} DecodeNamesIff(bs: seq<Block>, names: seq<Name>)
    ensures DecodeNames(bs) == (names, true) <==> ElementsAre(bs, names)
  {
    if bs != [] && names != [] {
      DecodeNamesIff(bs[1..], names[1..]);
      assert names == [names[0]] + names[1..];
      if ElementsAre(bs, names) {
        forall i | 0 <= i < |bs| - 1 ensures DecodeName(bs[1..][i]) == Some(names[1..][i]) {
          assert bs[1..][i] == bs[i + 1];
        }
      }
      if DecodeName(bs[0]) == Some(names[0]) && ElementsAre(bs[1..], names[1..]) {
        forall i | 0 <= i < |bs| ensures DecodeName(bs[i]) == Some(names[i]) {
          if i > 0 { assert bs[i] == bs[1..][i - 1] && names[i] == names[1..][i - 1]; }
        }
      }
    }
  }

  lemma NameRoundTrip(n: Name)
    requires EncodableName(n)
    ensures ValidBlock(NameBlock(n)) && DecodeName(NameBlock(n)) == Some(n)
  {
    var bs := ComponentBlocks(n);
    forall b | b in bs ensures ValidBlock(b) {
      var i :| 0 <= i < |bs| && bs[i] == b;
      assert n[i] in n;
    }
    BlocksRoundTrip(bs);
    assert ToName(bs) == n;
  }

  lemma {:induction false} NamesRoundTrip(names: seq<Name>)
    requires forall n :: n in names ==> EncodableName(n)
    ensures DecodeNames(NameBlocks(names)) == (names, true)
    ensures forall b :: b in NameBlocks(names) ==> ValidBlock(b)
  {
    if names != [] {
      var head, tail := names[0], names[1..];
      assert names == [head] + tail && head in names;
      NameRoundTrip(head);
      NamesRoundTrip(tail);
      NameBlocksCons(head, tail);
      assert ([NameBlock(head)] + NameBlocks(tail))[1..] == NameBlocks(tail);
    }
  }

  lemma NameBlocksCons(head: Name, tail: seq<Name>)
    ensures NameBlocks([head] + tail) == [NameBlock(head)] + NameBlocks(tail)
  {
  }

  /** Decoding the encoding gives back the same names in the same order, also when
      the list block is read from the content of another packet. */
  lemma ListRoundTrip(names: seq<Name>)
    requires Encodable(names)
    ensures DecodeList(ListBlock(names)) == Some(names)
    ensures ParseBlocks(EncodeBlock(ListBlock(names))) == Some([ListBlock(names)])
  {
    NamesRoundTrip(names);
    BlocksRoundTrip(NameBlocks(names));
    BlocksRoundTrip([ListBlock(names)]);
    assert EncodeBlocks([ListBlock(names)]) == EncodeBlock(ListBlock(names)) + [];
    assert EncodeBlock(ListBlock(names)) + [] == EncodeBlock(ListBlock(names));
  }

  /** The octets pinned by the unit tests for the empty list and for /A. */
  lemma PinnedOctets()
    ensures EncodeBlock(ListBlock([])) == [200, 0]
    ensures EncodeBlock(ListBlock([[Component(GENERIC_COMPONENT, [65])]])) == [200, 5, 7, 3, 8, 1, 65]
  {
    var n := [Component(GENERIC_COMPONENT, [65])];
    var c := Block(GENERIC_COMPONENT, [65]);
    assert ComponentBlocks(n) == [c];
    assert EncodeBlocks([c]) == EncodeBlock(c) + EncodeBlocks([]) == [8, 1, 65];
    var b := Block(NAME_TYPE, [8, 1, 65]);
    assert NameBlocks([n]) == [b];
    assert EncodeBlocks([b]) == EncodeBlock(b) + EncodeBlocks([]) == [7, 3, 8, 1, 65];
  }

  lemma {:induction false} EncodeAppend(bs: seq<Block>, b: Block)
    ensures EncodeBlocks(bs + [b]) == EncodeBlocks(bs) + EncodeBlock(b)
  {
    var all := bs + [b];
    if bs == [] {
      assert all == [b] && [b][1..] == [];
      assert EncodeBlocks([b]) == EncodeBlock(b) + EncodeBlocks([]) == EncodeBlock(b);
      assert EncodeBlocks([]) + EncodeBlock(b) == EncodeBlock(b);
    } else {
      var head, tail, last := EncodeBlock(bs[0]), EncodeBlocks(bs[1..]), EncodeBlock(b);
      assert all[0] == bs[0] && all[1..] == bs[1..] + [b];
      EncodeAppend(bs[1..], b);
      assert EncodeBlocks(all) == head + (tail + last);
      assert head + (tail + last) == head + tail + last;
    }
  }

  lemma EncodeOneMore(names: seq<Name>, i: nat)
    requires i < |names|
    ensures EncodeBlocks(NameBlocks(names[..i + 1])) == EncodeBlocks(NameBlocks(names[..i])) + EncodeBlock(NameBlock(names[i]))
  {
    assert NameBlocks(names[..i + 1]) == NameBlocks(names[..i]) + [NameBlock(names[i])];
    EncodeAppend(NameBlocks(names[..i]), NameBlock(names[i]));
  }

  // ----- Sorting -----

  ghost predicate Sorted(s: seq<Name>) { forall i, j :: 0 <= i < j < |s| ==> !NameLess(s[j], s[i]) }

  lemma NotLessTransitive(a: Name, b: Name, c: Name)
    requires !NameLess(b, a) && !NameLess(c, b)
    ensures !NameLess(c, a)
  {
    NameOrder(a, b);
    NameOrder(b, c);
    if NameLess(c, a) {
      NameOrder(a, c);
      if a != b { NameTransitive(c, a, b); }
    }
  }

  lemma MultisetTail(s: seq<Name>)
    requires s != []
    ensures multiset(s[1..]) == multiset(s) - multiset{s[0]} && s == [s[0]] + s[1..]
  {
    assert s == [s[0]] + s[1..];
  }

  /** Sorted arrangements of the same entries are the same list. */
  lemma {:induction false} SortedUnique(a: seq<Name>, b: seq<Name>)
    requires Sorted(a) && Sorted(b) && multiset(a) == multiset(b)
    ensures a == b
  {
    assert |a| == |multiset(a)| == |b|;
    if a != [] {
      assert a[0] in multiset(b) && b[0] in multiset(a);
      var i :| 0 <= i < |b| && b[i] == a[0];
      var j :| 0 <= j < |a| && a[j] == b[0];
      NameOrder(a[0], b[0]);
      assert a[0] == b[0];
      MultisetTail(a);
      MultisetTail(b);
      SortedUnique(a[1..], b[1..]);
    }
  }

  method InsertInOrder(s: seq<Name>, x: Name) returns (r: seq<Name>)
    requires Sorted(s)
    ensures Sorted(r) && multiset(r) == multiset(s) + multiset{x}
  {
    var i := 0;
    while i < |s| && NameLess(s[i], x)
      invariant 0 <= i <= |s|
      invariant forall j :: 0 <= j < i ==> NameLess(s[j], x)
    {
      i := i + 1;
    }
    forall j | 0 <= j < i ensures !NameLess(x, s[j]) { NameOrder(s[j], x); }
    forall j | i <= j < |s| ensures !NameLess(s[j], x) {
      if j > i { NotLessTransitive(x, s[i], s[j]); }
    }
    r := s[..i] + [x] + s[i..];
    assert s == s[..i] + s[i..];
  }

  method Sort(s: seq<Name>) returns (r: seq<Name>)
    ensures Sorted(r) && multiset(r) == multiset(s)
  {
    r := [];
    for i := 0 to |s|
      invariant Sorted(r) && multiset(r) == multiset(s[..i])
    {
      assert s[..i + 1] == s[..i] + [s[i]];
      r := InsertInOrder(r, s[i]);
    }
    assert s[..|s|] == s;
  }

  /** The first i elements have given these names. */
  ghost predicate DecodedUpTo(bs: seq<Block>, i: nat, got: seq<Name>)
    requires i <= |bs|
  {
    var (rest, ok) := DecodeNames(bs[i..]);
    DecodeNames(bs) == (got + rest, ok)
  }

  lemma DecodeStart(bs: seq<Block>)
    ensures DecodedUpTo(bs, 0, [])
  {
    assert bs[0..] == bs && [] + DecodeNames(bs).0 == DecodeNames(bs).0;
  }

  lemma DecodeStep(bs: seq<Block>, i: nat, got: seq<Name>)
    requires i < |bs| && DecodedUpTo(bs, i, got)
    ensures var n := DecodeName(bs[i]);
            if n.None? then DecodeNames(bs) == (got, false) else DecodedUpTo(bs, i + 1, got + [n.value])
  {
    var n := DecodeName(bs[i]);
    assert bs[i..][0] == bs[i] && bs[i..][1..] == bs[i + 1..];
    if n.None? {
      assert got + [] == got;
    } else {
      var rest := DecodeNames(bs[i + 1..]).0;
      assert got + ([n.value] + rest) == got + [n.value] + rest;
    }
  }

  lemma DecodeEnd(bs: seq<Block>, got: seq<Name>)
    requires DecodedUpTo(bs, |bs|, got)
    ensures DecodeNames(bs) == (got, true)
  {
    assert bs[|bs|..] == [] && got + [] == got;
  }

  class MpsSignerList {
    var signers: seq<Name>

    constructor (signers: seq<Name>)
      ensures this.signers == signers
    {
      this.signers := signers;
    }

    /** Pushes one element per name into the list block. */
    method WireEncode() returns (wire: Block)
      ensures wire == ListBlock(signers)
    {
      var value: Bytes := [];
      for i := 0 to |signers|
        invariant value == EncodeBlocks(NameBlocks(signers[..i]))
      {
        EncodeOneMore(signers, i);
        value := value + EncodeBlock(NameBlock(signers[i]));
      }
      assert signers[..|signers|] == signers;
      wire := Block(SIGNER_LIST_TYPE, value);
    }

    /** Decodes into this list. Where the program throws, `ok` is false: the list is
        untouched if the block was rejected as a whole, and otherwise holds the names
        before the first bad element. */
    method WireDecode(wire: Block) returns (ok: bool)
      modifies this
      ensures ok <==> DecodeList(wire).Some?
      ensures ok ==> Some(signers) == DecodeList(wire)
      ensures !ok ==>
                (signers == if wire.kind != SIGNER_LIST_TYPE || ParseBlocks(wire.value).None? then old(signers)
                            else DecodeNames(ParseBlocks(wire.value).value).0)
    {
      if wire.kind != SIGNER_LIST_TYPE { return false; }
      var elements := ParseBlocks(wire.value);
      if elements.None? { return false; }
      var bs := elements.value;
      signers := [];
      DecodeStart(bs);
      for i := 0 to |bs|
        invariant DecodedUpTo(bs, i, signers)
      {
        DecodeStep(bs, i, signers);
        var n := DecodeName(bs[i]);
        if n.None? { return false; }
        signers := signers + [n.value];
      }
      DecodeEnd(bs, signers);
      return true;
    }

    /** Compares sorted copies: true exactly for equal multisets of names. For
        duplicate-free lists that is the documented "same set of names". */
    method Equals(rhs: MpsSignerList) returns (equal: bool)
      ensures equal <==> multiset(signers) == multiset(rhs.signers)
      ensures NoDup(signers) && NoDup(rhs.signers) ==>
                (equal <==> Elements(signers) == Elements(rhs.signers))
    {
      var nameList := Sort(signers);
      var rhsNameList := Sort(rhs.signers);
      if multiset(signers) == multiset(rhs.signers) {
        SortedUnique(nameList, rhsNameList);
      }
      SameNames(signers, rhs.signers);
      return nameList == rhsNameList;
    }
  }
}
