/** Wildcard names: matching, and the parser of the "Nx/a/b/" syntax. */
module Patterns {
  import opened Names

  /** The largest component type is 65535; the wildcard marker is one below it. */
  const WILDCARD: nat := 65534

  /** A wildcard name and how many names it asks for (a 64-bit unsigned number). */
  datatype Pattern = Pattern(name: Name, times: nat) {
    /** Same length, and equal values at every position that is not a wildcard.
        Component types other than the wildcard marker play no part. */
    ghost predicate Matches(n: Name) {
      && |name| == |n|
      && forall i :: 0 <= i < |n| ==> name[i].kind == WILDCARD || name[i].value == n[i].value
    }

    method Match(n: Name) returns (b: bool)
      ensures b == Matches(n)
    {
      if |name| != |n| { return false; }
      for i := 0 to |name|
        invariant forall j :: 0 <= j < i ==> name[j].kind == WILDCARD || name[j].value == n[j].value
      {
        if name[i].kind != WILDCARD && name[i].value != n[i].value { return false; }
      }
      return true;
    }
  }

  /** The pattern made from a plain name asks for one name. */
  function FromName(n: Name): Pattern { Pattern(n, 1) }

  // Characters of the textual form.
  const SLASH: Byte := 47
  const STAR: Byte := 42
  const LETTER_X: Byte := 120
  const PLUS: Byte := 43
  const MINUS: Byte := 45
  const ZERO: Byte := 48

  const INT_MAX: int := 0x7fff_ffff
  const SIZE_MODULUS: int := 0x1_0000_0000_0000_0000

  predicate IsDigit(b: Byte) { ZERO <= b <= ZERO + 9 }
  predicate IsSpace(b: Byte) { b == 32 || 9 <= b <= 13 }

  /** Position of the first `c`, or the length of `s`. */
  function IndexOf(s: Bytes, c: Byte): (i: nat)
    ensures i <= |s| && (i < |s| ==> s[i] == c) && c !in s[..i]
  {
    if s == [] || s[0] == c then 0 else 1 + IndexOf(s[1..], c)
  }

  lemma {:induction false} IndexOfAt(pre: Bytes, c: Byte, post: Bytes)
    requires c !in pre
    ensures IndexOf(pre, c) == |pre|
    ensures IndexOf(pre + [c] + post, c) == |pre|
  {
    if pre != [] {
      assert (pre + [c] + post)[1..] == pre[1..] + [c] + post;
      IndexOfAt(pre[1..], c, post);
    }
  }

  lemma {:induction false} IndexOfBefore(pre: Bytes, c: Byte, post: Bytes)
    requires c !in pre
    ensures IndexOf(pre + post, c) >= |pre|
  {
    if pre != [] {
      assert (pre + post)[1..] == pre[1..] + post;
      IndexOfBefore(pre[1..], c, post);
    }
  }

  function SkipSpace(s: Bytes): Bytes {
    if s != [] && IsSpace(s[0]) then SkipSpace(s[1..]) else s
  }

  function LeadingDigits(s: Bytes): (i: nat)
    ensures i <= |s| && forall j :: 0 <= j < i ==> IsDigit(s[j])
    ensures i < |s| ==> !IsDigit(s[i])
  {
    if s == [] || !IsDigit(s[0]) then 0 else 1 + LeadingDigits(s[1..])
  }

  function DigitsValue(s: Bytes): nat
    requires forall j :: 0 <= j < |s| ==> IsDigit(s[j])
  {
    if s == [] then 0 else
      assert IsDigit(s[|s| - 1]);
      10 * DigitsValue(s[..|s| - 1]) + (s[|s| - 1] - ZERO)
  }

  /** The number the leading digits spell; None without a digit. */
  function LeadingNumber(s: Bytes): Option<nat> {
    var digits := s[..LeadingDigits(s)];
    if digits == [] then None else Some(DigitsValue(digits))
  }

  /** `std::stoi`: leading blanks, a sign, digits; None where it throws. */
  function Stoi(s: Bytes): Option<int> {
    var t := SkipSpace(s);
    var signed := t != [] && (t[0] == PLUS || t[0] == MINUS);
    match LeadingNumber(if signed then t[1..] else t)
    case None => None
    case Some(n) =>
      var v: int := n;
      if signed && t[0] == MINUS then (if v <= INT_MAX + 1 then Some(-v) else None)
      else (if v <= INT_MAX then Some(v) else None)
  }

  /** An `int` stored in a `size_t` wraps around when negative. */
  function ToSize(v: int): nat
    requires -SIZE_MODULUS <= v < SIZE_MODULUS
  {
    if v < 0 then v + SIZE_MODULUS else v
  }

  /** The multiplicity is read only when an 'x' comes before the first slash. */
  function Multiplicity(s: Bytes): nat {
    var x := IndexOf(s, LETTER_X);
    if x < IndexOf(s, SLASH) then
      match Stoi(s[..x]) case Some(v) => ToSize(v) case None => 1
    else 1
  }

  function Split(s: Bytes): (parts: seq<Bytes>)
    ensures parts != []
    decreases |s|
  {
    var i := IndexOf(s, SLASH);
    if i == |s| then [s] else [s[..i]] + Split(s[i + 1..])
  }

  function Join(parts: seq<Bytes>): Bytes
    requires parts != []
  {
    if |parts| == 1 then parts[0] else parts[0] + [SLASH] + Join(parts[1..])
  }

  function ToComponent(part: Bytes): Component {
    if part == [STAR] then Component(WILDCARD, []) else Component(GENERIC_COMPONENT, part)
  }

  function ToComponents(parts: seq<Bytes>): (n: Name)
    ensures |n| == |parts|
  {
    seq(|parts|, i requires 0 <= i < |parts| => ToComponent(parts[i]))
  }

  lemma ToComponentsCons(part: Bytes, parts: seq<Bytes>)
    ensures ToComponents([part] + parts) == [ToComponent(part)] + ToComponents(parts)
  {
  }

  /** What the parser must return; None where it throws. */
  function Parsed(s: Bytes): Option<Pattern> {
    var i := IndexOf(s, SLASH);
    if i == |s| then None else Some(Pattern(ToComponents(Split(s[i + 1..])), Multiplicity(s)))
  }

  /** The constructor from a string: it eats the text component by component. */
  method Parse(s: Bytes) returns (r: Option<Pattern>)
    ensures r == Parsed(s)
  {
    var xPos := IndexOf(s, LETTER_X);
    var slashPos := IndexOf(s, SLASH);
    if slashPos == |s| { return None; }
    var times := 1;
    if xPos < slashPos {
      var v := Stoi(s[..xPos]);
      if v.Some? { times := ToSize(v.value); }
    }
    var rest := s[slashPos + 1..];
    var name: Name := [];
    ghost var all := Split(rest);
    slashPos := IndexOf(rest, SLASH);
    while slashPos < |rest|
      invariant slashPos == IndexOf(rest, SLASH)
      invariant ParsedSoFar(name, rest, all)
      decreases |rest|
    {
      ParseStep(name, rest, all);
      name := name + [ToComponent(rest[..slashPos])];
      rest := rest[slashPos + 1..];
      slashPos := IndexOf(rest, SLASH);
    }
    ParseStep(name, rest, all);
    name := name + [ToComponent(rest)];
    return Some(Pattern(name, times));
  }

  /** The components read and the text left make up all the components. */
  ghost predicate ParsedSoFar(name: Name, rest: Bytes, all: seq<Bytes>) {
    name + ToComponents(Split(rest)) == ToComponents(all)
  }

  lemma Assoc(a: Name, b: Name, c: Name)
    ensures a + (b + c) == a + b + c
  {
  }

  lemma ParseStep(name: Name, rest: Bytes, all: seq<Bytes>)
    requires ParsedSoFar(name, rest, all)
    ensures var i := IndexOf(rest, SLASH);
            if i < |rest| then ParsedSoFar(name + [ToComponent(rest[..i])], rest[i + 1..], all)
            else name + [ToComponent(rest)] == ToComponents(all)
  {
    var i := IndexOf(rest, SLASH);
    if i < |rest| {
      ParseMore(name, rest[..i], Split(rest[i + 1..]));
    } else {
      ParseMore(name, rest, []);
      assert [rest] + [] == [rest];
    }
  }

  lemma ParseMore(name: Name, part: Bytes, more: seq<Bytes>)
    ensures name + ToComponents([part] + more) == name + [ToComponent(part)] + ToComponents(more)
    ensures more == [] ==> name + ToComponents([part] + more) == name + [ToComponent(part)]
  {
    ToComponentsCons(part, more);
    Assoc(name, [ToComponent(part)], ToComponents(more));
    if more == [] { assert name + [ToComponent(part)] + [] == name + [ToComponent(part)]; }
  }

  /** Decimal text of an integer, as a schema author writes it. */
  function Decimal(v: int): Bytes
    decreases if v < 0 then 1 - v else v
  {
    if v < 0 then [MINUS] + Decimal(-v)
    else if v < 10 then [ZERO + v]
    else Decimal(v / 10) + [ZERO + v % 10]
  }

  lemma {:induction false} DecimalDigits(v: nat)
    ensures forall j :: 0 <= j < |Decimal(v)| ==> IsDigit(Decimal(v)[j])
    ensures DigitsValue(Decimal(v)) == v && Decimal(v) != []
  {
    if v < 10 {
      assert Decimal(v)[..0] == [];
    } else {
      DecimalDigits(v / 10);
      assert Decimal(v)[..|Decimal(v)| - 1] == Decimal(v / 10);
    }
  }

  lemma StoiDecimal(v: int)
    requires -INT_MAX - 1 <= v <= INT_MAX
    ensures Stoi(Decimal(v)) == Some(v)
    ensures LETTER_X !in Decimal(v) && SLASH !in Decimal(v)
  {
    var a := if v < 0 then -v else v;
    DecimalDigits(a);
    var d := Decimal(a);
    assert SLASH !in d && LETTER_X !in d;
    LeadingNumberOf(d);
    if v < 0 { StoiSigned(d, a); } else { StoiUnsigned(d, a); }
  }

  lemma LeadingNumberOf(d: Bytes)
    requires d != [] && forall j :: 0 <= j < |d| ==> IsDigit(d[j])
    ensures LeadingNumber(d) == Some(DigitsValue(d))
  {
    AllLeading(d);
    assert d[..|d|] == d;
  }

  lemma StoiUnsigned(d: Bytes, v: nat)
    requires d != [] && IsDigit(d[0]) && LeadingNumber(d) == Some(v) && v <= INT_MAX
    ensures Stoi(d) == Some(v)
  {
  }

  lemma StoiSigned(d: Bytes, v: nat)
    requires LeadingNumber(d) == Some(v) && v <= INT_MAX + 1
    ensures Stoi([MINUS] + d) == Some(-(v as int))
  {
    assert ([MINUS] + d)[1..] == d;
  }

  lemma {:induction false} AllLeading(d: Bytes)
    requires forall j :: 0 <= j < |d| ==> IsDigit(d[j])
    ensures LeadingDigits(d) == |d|
  {
    if d != [] { AllLeading(d[1..]); }
  }

  lemma SplitAt(head: Bytes, rest: Bytes)
    requires SLASH !in head
    ensures Split(head + [SLASH] + rest) == [head] + Split(rest)
  {
    var s := head + [SLASH] + rest;
    IndexOfAt(head, SLASH, rest);
    assert s[..|head|] == head && s[|head| + 1..] == rest;
  }

  lemma {:induction false} SplitJoin(parts: seq<Bytes>)
    requires parts != [] && forall p :: p in parts ==> SLASH !in p
    ensures Split(Join(parts)) == parts
  {
    var head, tail := parts[0], parts[1..];
    assert parts == [head] + tail;
    assert head in parts;
    if tail == [] {
      IndexOfAt(head, SLASH, []);
    } else {
      SplitJoin(tail);
      JoinCons(head, tail);
      SplitAt(head, Join(tail));
    }
  }

  lemma JoinCons(part: Bytes, parts: seq<Bytes>)
    requires parts != []
    ensures Join([part] + parts) == part + [SLASH] + Join(parts)
  {
    assert ([part] + parts)[1..] == parts;
  }

  lemma {:induction false} JoinSplit(s: Bytes)
    ensures Join(Split(s)) == s
    decreases |s|
  {
    var i := IndexOf(s, SLASH);
    if i < |s| {
      var part, rest := s[..i], s[i + 1..];
      assert s == part + [SLASH] + rest;
      JoinSplit(rest);
      JoinCons(part, Split(rest));
      assert Split(s) == [part] + Split(rest);
    }
  }

  /** Writing a count and components and parsing them back: the count is kept
      (a negative one wraps), and the pattern matches exactly the names of that
      length that carry every literal component at its position. */
  lemma ParseRoundTrip(count: int, parts: seq<Bytes>)
    requires -INT_MAX - 1 <= count <= INT_MAX
    requires parts != [] && forall p :: p in parts ==> SLASH !in p
    ensures var r := Parsed(Decimal(count) + [LETTER_X] + ([SLASH] + Join(parts)));
            && r.Some?
            && r.value.times == count % SIZE_MODULUS
            && |r.value.name| == |parts|
            && (forall i :: 0 <= i < |parts| ==> (r.value.name[i].kind == WILDCARD <==> parts[i] == [STAR]))
            && forall n: Name :: r.value.Matches(n) <==>
                 |n| == |parts| && forall i :: 0 <= i < |n| ==> parts[i] == [STAR] || parts[i] == n[i].value
  {
    ParsedCounted(count, parts);
    MatchesParts(parts, count % SIZE_MODULUS);
  }

  lemma ParsedCounted(count: int, parts: seq<Bytes>)
    requires -INT_MAX - 1 <= count <= INT_MAX
    requires parts != [] && forall p :: p in parts ==> SLASH !in p
    ensures Parsed(Decimal(count) + [LETTER_X] + ([SLASH] + Join(parts)))
         == Some(Pattern(ToComponents(parts), count % SIZE_MODULUS))
  {
    var digits := Decimal(count);
    assert Stoi(digits) == Some(count) && LETTER_X !in digits && SLASH !in digits by { StoiDecimal(count); }
    CountedText(digits, parts);
    MultiplicityOf(digits + [LETTER_X] + ([SLASH] + Join(parts)), digits, count);
  }

  lemma MultiplicityOf(s: Bytes, digits: Bytes, count: int)
    requires IndexOf(s, LETTER_X) < IndexOf(s, SLASH) && s[..IndexOf(s, LETTER_X)] == digits
    requires Stoi(digits) == Some(count) && -INT_MAX - 1 <= count <= INT_MAX
    ensures Multiplicity(s) == count % SIZE_MODULUS
  {
  }

  lemma MatchesParts(parts: seq<Bytes>, times: nat)
    ensures var p := Pattern(ToComponents(parts), times);
            && (forall i :: 0 <= i < |parts| ==> (p.name[i].kind == WILDCARD <==> parts[i] == [STAR]))
            && forall n: Name :: p.Matches(n) <==>
                 |n| == |parts| && forall i :: 0 <= i < |n| ==> parts[i] == [STAR] || parts[i] == n[i].value
  {
    var p := Pattern(ToComponents(parts), times);
    assert forall i :: 0 <= i < |parts| ==> p.name[i] == ToComponent(parts[i]);
  }

  /** Where the parser cuts a text "count x / a / b". */
  lemma CountedText(count: Bytes, parts: seq<Bytes>)
    requires LETTER_X !in count && SLASH !in count
    requires parts != [] && forall p :: p in parts ==> SLASH !in p
    ensures var s := count + [LETTER_X] + ([SLASH] + Join(parts));
            && IndexOf(s, LETTER_X) == |count| && s[..|count|] == count
            && IndexOf(s, SLASH) == |count| + 1
            && Split(s[|count| + 2..]) == parts
  {
    var pre := count + [LETTER_X];
    var s := pre + ([SLASH] + Join(parts));
    IndexOfAt(count, LETTER_X, [SLASH] + Join(parts));
    assert s == pre + [SLASH] + Join(parts);
    IndexOfAt(pre, SLASH, Join(parts));
    assert s[|pre| + 1..] == Join(parts);
    SplitJoin(parts);
  }

  /** Without an 'x' before the first slash the multiplicity is one, and the
      components are exactly the slash-separated parts of the rest. */
  lemma ParsePlain(tag: Bytes, parts: seq<Bytes>)
    requires LETTER_X !in tag && SLASH !in tag
    requires parts != [] && forall p :: p in parts ==> SLASH !in p
    ensures Parsed(tag + [SLASH] + Join(parts)) == Some(Pattern(ToComponents(parts), 1))
  {
    var s := tag + [SLASH] + Join(parts);
    IndexOfAt(tag, SLASH, Join(parts));
    assert s[|tag| + 1..] == Join(parts);
    SplitJoin(parts);
    NoCount(tag, Join(parts));
  }

  lemma NoCount(tag: Bytes, rest: Bytes)
    requires LETTER_X !in tag && SLASH !in tag
    ensures Multiplicity(tag + [SLASH] + rest) == 1
  {
    var s := tag + [SLASH] + rest;
    IndexOfAt(tag, SLASH, rest);
    assert s == tag + ([SLASH] + rest);
    IndexOfBefore(tag, LETTER_X, [SLASH] + rest);
    assert s[|tag|] == SLASH;
  }

  // ----- Every text before the 'x' -----

  /** What reading a number from these parts must give. */
  function ReadNumber(negative: bool, digits: Bytes): Option<int>
    requires forall j :: 0 <= j < |digits| ==> IsDigit(digits[j])
  {
    var v: int := DigitsValue(digits);
    if digits == [] || v > INT_MAX + (if negative then 1 else 0) then None
    else Some(if negative then -v else v)
  }

  lemma {:induction false} SkipBlanks(blanks: Bytes, rest: Bytes)
    requires (forall b :: b in blanks ==> IsSpace(b)) && (rest == [] || !IsSpace(rest[0]))
    ensures SkipSpace(blanks + rest) == rest
  {
    if blanks == [] {
      assert blanks + rest == rest;
    } else {
      assert blanks[0] in blanks && (blanks + rest)[1..] == blanks[1..] + rest;
      SkipBlanks(blanks[1..], rest);
    }
  }

  lemma {:induction false} LeadingOf(digits: Bytes, junk: Bytes)
    requires (forall j :: 0 <= j < |digits| ==> IsDigit(digits[j])) && (junk == [] || !IsDigit(junk[0]))
    ensures LeadingDigits(digits + junk) == |digits|
  {
    if digits == [] {
      assert digits + junk == junk;
    } else {
      assert (digits + junk)[1..] == digits[1..] + junk;
      LeadingOf(digits[1..], junk);
    }
  }

  /** Blanks, at most one sign, digits, and then anything else: the number is that of the
      digits, and there is none without digits or outside the range of an int. */
  lemma StoiReads(blanks: Bytes, sign: Bytes, digits: Bytes, junk: Bytes)
    requires forall b :: b in blanks ==> IsSpace(b)
    requires sign in {[], [PLUS], [MINUS]}
    requires forall j :: 0 <= j < |digits| ==> IsDigit(digits[j])
    requires junk != [] ==> !IsDigit(junk[0])
    requires junk != [] && digits == [] && sign == [] ==> !IsSpace(junk[0]) && junk[0] != PLUS && junk[0] != MINUS
    ensures Stoi(blanks + (sign + (digits + junk))) == ReadNumber(sign == [MINUS], digits)
  {
    var number := digits + junk;
    var t := sign + number;
    assert number != [] ==> number[0] == if digits == [] then junk[0] else digits[0];
    assert sign == [] ==> t == number;
    assert sign != [] ==> t[0] == sign[0] && t[1..] == number;
    SkipBlanks(blanks, t);
    LeadingOf(digits, junk);
    assert number[..|digits|] == digits;
  }

  lemma MarkedTimes(s: Bytes, count: Bytes)
    requires IndexOf(s, LETTER_X) < IndexOf(s, SLASH) && s[..IndexOf(s, LETTER_X)] == count
    ensures Multiplicity(s) == match Stoi(count) case None => 1 case Some(v) => v % SIZE_MODULUS
  {
  }

  lemma PartsAfter(head: Bytes, parts: seq<Bytes>)
    requires parts != [] && forall p :: p in parts ==> SLASH !in p
    ensures Split((head + [SLASH] + Join(parts))[|head| + 1..]) == parts
  {
    assert (head + [SLASH] + Join(parts))[|head| + 1..] == Join(parts);
    SplitJoin(parts);
  }

  /** A text with an 'x' before the first slash: the multiplicity is the number read before
      the 'x', one when there is none; whatever stands between 'x' and slash is ignored. */
  lemma ParseMarked(count: Bytes, mid: Bytes, parts: seq<Bytes>)
    requires LETTER_X !in count && SLASH !in count && SLASH !in mid
    requires parts != [] && forall p :: p in parts ==> SLASH !in p
    ensures Parsed(count + [LETTER_X] + (mid + [SLASH] + Join(parts)))
         == Some(Pattern(ToComponents(parts),
                         match Stoi(count) case None => 1 case Some(v) => v % SIZE_MODULUS))
  {
    var tail := mid + [SLASH] + Join(parts);
    var s := count + [LETTER_X] + tail;
    var head := count + [LETTER_X] + mid;
    IndexOfAt(count, LETTER_X, tail);
    assert s == head + [SLASH] + Join(parts);
    IndexOfAt(head, SLASH, Join(parts));
    assert s[..|count|] == count;
    MarkedTimes(s, count);
    PartsAfter(head, parts);
  }

  /** A text without a slash is no wildcard name; every other one is. */
  lemma ParsedIff(s: Bytes)
    ensures Parsed(s).Some? <==> SLASH in s
  {
    var i := IndexOf(s, SLASH);
    if i == |s| { assert s[..i] == s; }
  }
}
