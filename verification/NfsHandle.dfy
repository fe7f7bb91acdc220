/**
 * NFS file handles. An entry ID "counter-timestamp-node" is parsed into three numbers that fit into a handle, and
 * printed from them again; the root directory, whose ID is "root", is stored as three zeros.
 */
module NfsHandle {

  datatype Option<T> = None | Some(value: T)

  type U16 = n: int | 0 <= n < 0x1_0000
  type U32 = n: int | 0 <= n < 0x1_0000_0000

  const META_ROOTDIR_ID_STR := "root"

  datatype Triple = Triple(counter: U32, timestamp: U32, nodeID: U16)

  // printing with %X

  function HexDigit(d: nat): (c: char)
    requires d < 16
    ensures IsHex(c) && DigitValue(c) == d
  {
    if d < 10 then '0' + d as char else 'A' + (d - 10) as char
  }

  predicate IsHex(c: char) {
    '0' <= c <= '9' || 'A' <= c <= 'F' || 'a' <= c <= 'f'
  }

  function DigitValue(c: char): (d: nat)
    requires IsHex(c)
    ensures d < 16
  {
    if c <= '9' then (c - '0') as nat else if c <= 'F' then (c - 'A') as nat + 10 else (c - 'a') as nat + 10
  }

  function Hex(n: nat): (s: string)
    ensures s != [] && forall c <- s :: IsHex(c)
  {
    if n < 16 then [HexDigit(n)] else Hex(n / 16) + [HexDigit(n % 16)]
  }

  function Print(t: Triple): string {
    Hex(t.counter) + "-" + (Hex(t.timestamp) + "-" + Hex(t.nodeID))
  }

  // scanning with %X

  function Value(s: string, acc: nat): nat
    requires forall c <- s :: IsHex(c)
  {
    if s == [] then acc else Value(s[1..], acc * 16 + DigitValue(s[0]))
  }

  /** Length of the longest prefix of hexadecimal digits. */
  function HexPrefix(s: string): (n: nat)
    ensures n <= |s| && (forall c <- s[..n] :: IsHex(c)) && (n < |s| ==> !IsHex(s[n]))
  {
    if s == [] || !IsHex(s[0]) then 0
    else
      var n := HexPrefix(s[1..]);
      assert s[..n + 1] == [s[0]] + s[1..][..n];
      1 + n
  }

  /** White space to the kernel, which takes Latin-1's no-break space for it, too. */
  predicate IsSpace(c: char) {
    c == ' ' || '\t' <= c <= '\r' || c as int == 0xA0
  }

  function SkipSpaces(s: string): string {
    if s != [] && IsSpace(s[0]) then SkipSpaces(s[1..]) else s
  }

  predicate HasPrefix0x(s: string) {
    |s| > 1 && s[0] == '0' && (s[1] == 'x' || s[1] == 'X')
  }

  /**
   * Scans one number, which is stored into 32 bits, and returns the rest of the string. White space and "0x" may come
   * before it; behind "0x" there may be no digit at all.
   */
  function ScanHex(s: string): Option<(U32, string)> {
    var t := SkipSpaces(s);
    if t == [] || !IsHex(t[0]) then None
    else
      var d := if HasPrefix0x(t) then t[2..] else t;
      var n := HexPrefix(d);
      Some((Value(d[..n], 0) % 0x1_0000_0000, d[n..]))
  }

  /** No part of a number that has been scanned up to here. */
  predicate EndsNumber(rest: string) {
    rest == [] || rest[0] == '-'
  }

  /** A number followed by a dash. */
  function ScanPart(s: string): Option<(U32, string)> {
    match ScanHex(s)
    case None => None
    case Some((n, rest)) => if rest != [] && rest[0] == '-' then Some((n, rest[1..])) else None
  }

  function ParseEntryID(id: string): Option<Triple> {
    match ScanPart(id)
    case None => None
    case Some((counter, r1)) =>
      match ScanPart(r1)
      case None => None
      case Some((timestamp, r2)) =>
        match ScanHex(r2)
        case None => None
        case Some((nodeID32, _)) => Some(Triple(counter, timestamp, nodeID32 % 0x1_0000))
  }

  lemma {:induction false} ValueOfSnoc(s: string, c: char, acc: nat)
    requires IsHex(c) && forall x <- s :: IsHex(x)
    ensures Value(s + [c], acc) == Value(s, acc) * 16 + DigitValue(c)
  {
    if s == [] {
      assert [c][1..] == [];
    } else {
      assert (s + [c])[1..] == s[1..] + [c];
      ValueOfSnoc(s[1..], c, acc * 16 + DigitValue(s[0]));
    }
  }

  lemma {:induction false} ValueOfHex(n: nat)
    ensures Value(Hex(n), 0) == n
  {
    if n < 16 {
      assert Hex(n)[1..] == [];
    } else {
      ValueOfHex(n / 16);
      ValueOfSnoc(Hex(n / 16), HexDigit(n % 16), 0);
    }
  }

  /** A printed number is scanned back, whatever follows it. */
  lemma ScanPrinted(n: U32, rest: string)
    requires EndsNumber(rest)
    ensures ScanHex(Hex(n) + rest) == Some((n, rest))
  {
    ValueOfHex(n);
    ScanDigitsAs(Hex(n), n, rest);
  }

  lemma ScanDigitsAs(a: string, n: U32, rest: string)
    requires a != [] && (forall c <- a :: IsHex(c)) && EndsNumber(rest) && Value(a, 0) == n
    ensures ScanHex(a + rest) == Some((n, rest))
  {
    ScanDigits(a, rest);
  }

  lemma ScanDigits(a: string, rest: string)
    requires a != [] && (forall c <- a :: IsHex(c)) && EndsNumber(rest)
    ensures ScanHex(a + rest) == Some((Value(a, 0) % 0x1_0000_0000, rest))
  {
    PrefixOfDigits(a, rest);
    assert a[0] in a && !IsSpace(a[0]);
    assert |a| > 1 ==> a[1] in a;
    assert !HasPrefix0x(a + rest);
    assert (a + rest)[..|a|] == a && (a + rest)[|a|..] == rest;
  }

  /** White space in front of a number does not matter, and neither does "0x". */
  lemma ScanTolerates(space: string, n: U32, rest: string)
    requires (forall c <- space :: IsSpace(c)) && EndsNumber(rest)
    ensures ScanHex(space + (Hex(n) + rest)) == Some((n, rest))
    ensures ScanHex(space + ("0x" + (Hex(n) + rest))) == Some((n, rest))
  {
    var s := Hex(n) + rest;
    ScanPrinted(n, rest);
    StartsWithDigit(n, rest);
    ScanPrefixed(n, rest, s);
    SameBehindSpaces(space, s);
    SameBehindSpaces(space, "0x" + s);
  }

  lemma SameBehindSpaces(space: string, s: string)
    requires (forall c <- space :: IsSpace(c)) && s != [] && !IsSpace(s[0])
    ensures ScanHex(space + s) == ScanHex(s)
  {
    SpacesSkipped(space, s);
  }

  lemma ScanPrefixed(n: U32, rest: string, s: string)
    requires EndsNumber(rest) && s == Hex(n) + rest
    ensures ScanHex("0x" + s) == Some((n, rest))
  {
    ValueOfHex(n);
    PrefixOfDigits(Hex(n), rest);
    assert s[..|Hex(n)|] == Hex(n) && s[|Hex(n)|..] == rest;
    SkipPrefix("0x" + s, s);
  }

  lemma SkipPrefix(t: string, s: string)
    requires t == "0x" + s
    ensures var n := HexPrefix(s); ScanHex(t) == Some((Value(s[..n], 0) % 0x1_0000_0000, s[n..]))
  {
    assert t[2..] == s && HasPrefix0x(t);
  }

  lemma StartsWithDigit(n: U32, rest: string)
    ensures var s := Hex(n) + rest; s != [] && IsHex(s[0]) && !IsSpace(s[0])
  {
    assert Hex(n)[0] in Hex(n);
  }

  lemma {:induction false} SpacesSkipped(space: string, s: string)
    requires (forall c <- space :: IsSpace(c)) && s != [] && !IsSpace(s[0])
    ensures SkipSpaces(space + s) == s
  {
    if space == [] {
      assert space + s == s;
    } else {
      assert space[0] in space && (space + s)[1..] == space[1..] + s;
      SpacesSkipped(space[1..], s);
    }
  }

  lemma {:induction false} PrefixOfDigits(a: string, rest: string)
    requires (forall c <- a :: IsHex(c)) && (rest == [] || !IsHex(rest[0]))
    ensures HexPrefix(a + rest) == |a|
  {
    if a == [] {
      assert a + rest == rest;
    } else {
      assert (a + rest)[1..] == a[1..] + rest;
      PrefixOfDigits(a[1..], rest);
    }
  }

  lemma ScanPrintedPart(n: U32, rest: string)
    ensures ScanPart(Hex(n) + "-" + rest) == Some((n, rest))
  {
    var tail := "-" + rest;
    assert Hex(n) + "-" + rest == Hex(n) + tail;
    ScanPrinted(n, tail);
    assert tail[1..] == rest;
  }

  lemma ParsedParts(id: string, r1: string, r2: string, t: Triple, nodeID: U32)
    requires ScanPart(id) == Some((t.counter, r1)) && ScanPart(r1) == Some((t.timestamp, r2))
    requires ScanHex(r2) == Some((nodeID, "")) && nodeID == t.nodeID
    ensures ParseEntryID(id) == Some(t)
  {
  }

  /** Parsing recovers every printed triple. */
  lemma ParsePrinted(t: Triple)
    ensures ParseEntryID(Print(t)) == Some(t)
  {
    var r2 := Hex(t.nodeID);
    var r1 := Hex(t.timestamp) + "-" + r2;
    ScanPrintedPart(t.counter, r1);
    ScanPrintedPart(t.timestamp, r2);
    assert r2 + "" == r2;
    ScanPrinted(t.nodeID, "");
    ParsedParts(Print(t), r1, r2, t, t.nodeID);
  }

  /** The ID that a handle's three numbers stand for. */
  function EntryIDFromHandle(t: Triple): string {
    if t == Triple(0, 0, 0) then META_ROOTDIR_ID_STR else Print(t)
  }

  /** The three numbers for an ID, if it can be stored. */
  function TripleOfID(id: string): Option<Triple> {
    if id == META_ROOTDIR_ID_STR then Some(Triple(0, 0, 0)) else ParseEntryID(id)
  }

  predicate IsUpperHex(c: char) {
    '0' <= c <= '9' || 'A' <= c <= 'F'
  }

  /** One to maxDigits upper-case hexadecimal digits without leading zeros. */
  predicate IsNumber(s: string, maxDigits: nat) {
    0 < |s| <= maxDigits && (forall c <- s :: IsUpperHex(c)) && (s[0] == '0' ==> |s| == 1)
  }

  /** Three such numbers, of at most 8, 8 and 4 digits, with a dash between them and nothing behind. */
  ghost predicate Canonical(id: string) {
    exists a: string, b: string, c: string :: IsCanonical(id, a, b, c)
  }

  predicate IsCanonical(id: string, a: string, b: string, c: string) {
    IsNumber(a, 8) && IsNumber(b, 8) && IsNumber(c, 4) && id == a + "-" + (b + "-" + c)
  }

  function Pow16(n: nat): (p: nat)
    ensures p > 0
  {
    if n == 0 then 1 else 16 * Pow16(n - 1)
  }

  lemma {:induction false} HexIsNumber(n: nat, digits: nat)
    requires n < Pow16(digits) && 0 < digits
    ensures IsNumber(Hex(n), digits) && (n > 0 ==> Hex(n)[0] != '0')
  {
    assert IsUpperHex(HexDigit(n % 16));
    if n >= 16 {
      HexIsNumber(n / 16, digits - 1);
    }
  }

  /** Without leading zeros a string of digits is what its value is printed as. */
  lemma {:induction false} NumberIsHex(s: string, maxDigits: nat)
    requires IsNumber(s, maxDigits)
    ensures Value(s, 0) < Pow16(|s|) && Hex(Value(s, 0)) == s && (s[0] != '0' ==> Value(s, 0) > 0)
  {
    var n := |s| - 1;
    assert IsUpperHex(s[n]);
    if n == 0 {
      OneDigit(s);
    } else {
      NumberIsHex(s[..n], maxDigits);
      assert s == s[..n] + [s[n]];
      ValueOfSnoc(s[..n], s[n], 0);
      HexOfSnoc(Value(s[..n], 0), s[n]);
    }
  }

  lemma OneDigit(s: string)
    requires |s| == 1 && IsUpperHex(s[0])
    ensures Value(s, 0) < Pow16(1) && Hex(Value(s, 0)) == s && (s[0] != '0' ==> Value(s, 0) > 0)
  {
    assert s[1..] == [] && Value(s, 0) == DigitValue(s[0]);
    assert Pow16(1) == 16 * Pow16(0);
  }

  lemma HexOfSnoc(v: nat, c: char)
    requires v > 0 && IsUpperHex(c)
    ensures Hex(v * 16 + DigitValue(c)) == Hex(v) + [c]
  {
    var n := v * 16 + DigitValue(c);
    assert n / 16 == v && n % 16 == DigitValue(c);
  }

  /** The canonical IDs are exactly the printed ones. */
  lemma CanonicalIffPrinted(id: string)
    ensures Canonical(id) <==> exists t: Triple :: id == Print(t)
  {
    SmallPowers();
    if a: string, b: string, c: string :| IsCanonical(id, a, b, c) {
      NumberBelow(a, 8);
      NumberBelow(b, 8);
      NumberBelow(c, 4);
      assert id == Print(Triple(Value(a, 0), Value(b, 0), Value(c, 0)));
    }
    if t: Triple :| id == Print(t) {
      HexIsNumber(t.counter, 8);
      HexIsNumber(t.timestamp, 8);
      HexIsNumber(t.nodeID, 4);
      assert IsCanonical(id, Hex(t.counter), Hex(t.timestamp), Hex(t.nodeID));
    }
  }

  lemma SmallPowers()
    ensures Pow16(4) == 0x1_0000 && Pow16(8) == 0x1_0000_0000
  {
    assert Pow16(2) == 16 * Pow16(1) && Pow16(4) == 16 * Pow16(3) && Pow16(6) == 16 * Pow16(5);
  }

  lemma NumberBelow(s: string, maxDigits: nat)
    requires IsNumber(s, maxDigits)
    ensures Value(s, 0) < Pow16(maxDigits) && Hex(Value(s, 0)) == s
  {
    NumberIsHex(s, maxDigits);
    PowGrows(|s|, maxDigits);
  }

  lemma {:induction false} PowGrows(m: nat, n: nat)
    requires m <= n
    ensures Pow16(m) <= Pow16(n)
    decreases n - m
  {
    if m < n {
      PowGrows(m, n - 1);
    }
  }

  /** A stored ID is recovered exactly if it is the root's or canonical, and not "0-0-0". */
  lemma StoredIDRecovered(id: string)
    requires TripleOfID(id).Some?
    ensures EntryIDFromHandle(TripleOfID(id).value) == id <==>
      id == META_ROOTDIR_ID_STR || (Canonical(id) && id != Print(Triple(0, 0, 0)))
  {
    ParsePrinted(Triple(0, 0, 0));
    CanonicalIffPrinted(id);
    if t: Triple :| id == Print(t) {
      ParsePrinted(t);
      RootTestIsExact(t);
    }
  }

  lemma ZeroIDIsRoot()
    ensures Print(Triple(0, 0, 0)) == "0-0-0"
    ensures TripleOfID("0-0-0") == Some(Triple(0, 0, 0)) && EntryIDFromHandle(Triple(0, 0, 0)) == "root"
  {
    assert Print(Triple(0, 0, 0)) == "0-0-0";
    ParsePrinted(Triple(0, 0, 0));
  }

  /** The root test of the lookup: a comparison of as many characters as the ID has. */
  predicate TakenForRoot(id: string) {
    id <= META_ROOTDIR_ID_STR
  }

  /** Only the all-zero triple gives an ID that is taken for the root's. */
  lemma RootTestIsExact(t: Triple)
    ensures !TakenForRoot(Print(t))
    ensures TakenForRoot(EntryIDFromHandle(t)) <==> t == Triple(0, 0, 0)
  {
  }

  /** Different triples give different IDs, so no handle is mistaken for another entry's. */
  lemma IDsDistinct(t: Triple, u: Triple)
    requires EntryIDFromHandle(t) == EntryIDFromHandle(u)
    ensures t == u
  {
    RootTestIsExact(t);
    RootTestIsExact(u);
    ParsePrinted(t);
    ParsePrinted(u);
  }

  // the handle

  datatype HandleType = STANDARD_V1 | STANDARD_V2 | INVALID | BUFTOOSMALL | OTHER

  type EntryType = n: int | 0 <= n < 256

  datatype EntryInfo = EntryInfo(entryID: string, parentEntryID: string, ownerNodeID: U16, entryType: EntryType)

  const HANDLE_LEN_V1 := 23
  const HANDLE_LEN_V2 := 25

  /** The words of the handle buffer. A V1 handle is read from the same buffer and has no parent owner. */
  class HandleBuf {
    var entry: Triple
    var parent: Triple
    var ownerNodeID: U16
    var parentOwnerNodeID: U16
    var entryType: EntryType

    constructor ()
    {
      entry, parent, ownerNodeID, parentOwnerNodeID, entryType := Triple(0, 0, 0), Triple(0, 0, 0), 0, 0, 0;
    }
  }

  method ParentTriple(id: string) returns (t: Option<Triple>)
    ensures t == TripleOfID(id)
  {
    if id == META_ROOTDIR_ID_STR {
      return Some(Triple(0, 0, 0));
    }
    t := ParseEntryID(id);
  }

  /** Fills the handle buffer of maxLen four-byte words; returns the type and the number of words needed. */
  method EncodeHandle(info: EntryInfo, parentOwner: Option<U16>, buf: HandleBuf, maxLen: nat)
    returns (res: HandleType, len: nat)
    modifies buf
    ensures len == 7
    ensures res == BUFTOOSMALL <==> maxLen < len
    ensures res == BUFTOOSMALL || res == INVALID || res == STANDARD_V2
    ensures maxLen >= len ==> (res == INVALID <==>
      info.entryID != META_ROOTDIR_ID_STR && (TripleOfID(info.entryID).None? || TripleOfID(info.parentEntryID).None?))
    ensures res == STANDARD_V2 ==> Some(buf.entry) == TripleOfID(info.entryID)
    ensures res == STANDARD_V2 && info.entryID != META_ROOTDIR_ID_STR ==>
      && Some(buf.parent) == TripleOfID(info.parentEntryID)
      && buf.ownerNodeID == info.ownerNodeID && buf.entryType == info.entryType
      && buf.parentOwnerNodeID == if parentOwner.Some? then parentOwner.value else 0
  {
    len := (HANDLE_LEN_V2 + 3) / 4;
    if maxLen * 4 < HANDLE_LEN_V2 {
      return BUFTOOSMALL, len;
    }
    if info.entryID == META_ROOTDIR_ID_STR {
      buf.entry := Triple(0, 0, 0);
      return STANDARD_V2, len;
    }
    var parsed := ParseEntryID(info.entryID);
    if parsed.None? {
      return INVALID, len;
    }
    buf.entry := parsed.value;
    var parsedParent := ParentTriple(info.parentEntryID);
    if parsedParent.None? {
      return INVALID, len;
    }
    buf.parent := parsedParent.value;
    buf.ownerNodeID, buf.entryType := info.ownerNodeID, info.entryType;
    buf.parentOwnerNodeID := if parentOwner.Some? then parentOwner.value else 0;
    return STANDARD_V2, len;
  }

  /** What a lookup by handle asks for. */
  datatype Lookup = Lookup(
    entryID: string, isRoot: bool, ownerNodeID: U16, parentEntryID: Option<string>, entryType: EntryType)

  /** The entry a handle of `len` words stands for. */
  method HandleToEntry(buf: HandleBuf, len: nat, handleType: HandleType) returns (r: Option<Lookup>)
    ensures r.Some? <==>
      || (handleType == STANDARD_V1 && len * 4 >= HANDLE_LEN_V1)
      || (handleType == STANDARD_V2 && len * 4 >= HANDLE_LEN_V2)
    ensures r.Some? ==> r.value == Lookup(EntryIDFromHandle(buf.entry), buf.entry == Triple(0, 0, 0), buf.ownerNodeID,
      Some(EntryIDFromHandle(buf.parent)), buf.entryType)
  {
    if handleType != STANDARD_V1 && handleType != STANDARD_V2 {
      return None;
    }
    if len * 4 < if handleType == STANDARD_V2 then HANDLE_LEN_V2 else HANDLE_LEN_V1 {
      return None;
    }
    RootTestIsExact(buf.entry);
    var id := EntryIDFromHandle(buf.entry);
    return Some(Lookup(id, TakenForRoot(id), buf.ownerNodeID, Some(EntryIDFromHandle(buf.parent)), buf.entryType));
  }

  /** The parent of the entry a handle stands for; only V2 handles know the parent's owner. */
  method HandleToParent(buf: HandleBuf, len: nat, handleType: HandleType) returns (r: Option<Lookup>)
    ensures r.Some? <==> handleType == STANDARD_V2 && len * 4 >= HANDLE_LEN_V2
    ensures r.Some? ==> r.value == Lookup(EntryIDFromHandle(buf.parent), buf.parent == Triple(0, 0, 0),
      buf.parentOwnerNodeID, None, buf.entryType)
  {
    if handleType != STANDARD_V2 || len * 4 < HANDLE_LEN_V2 {
      return None;
    }
    RootTestIsExact(buf.parent);
    var id := EntryIDFromHandle(buf.parent);
    return Some(Lookup(id, TakenForRoot(id), buf.parentOwnerNodeID, None, buf.entryType));
  }

  predicate Recoverable(id: string) {
    TripleOfID(id).Some? && EntryIDFromHandle(TripleOfID(id).value) == id
  }

  /** Encoding and decoding together: what comes back, and when it is what went in. */
  method RoundTrip(info: EntryInfo, parentOwner: Option<U16>, buf: HandleBuf)
    returns (entry: Option<Lookup>, parent: Option<Lookup>)
    modifies buf
    ensures entry.Some? && entry.value.entryID == info.entryID <==>
      Recoverable(info.entryID) && (info.entryID == META_ROOTDIR_ID_STR || TripleOfID(info.parentEntryID).Some?)
    ensures info.entryID == META_ROOTDIR_ID_STR ==> entry.Some? && entry.value.isRoot
    ensures info.entryID != META_ROOTDIR_ID_STR && Recoverable(info.entryID) && Recoverable(info.parentEntryID) ==>
      && entry == Some(Lookup(info.entryID, false, info.ownerNodeID, Some(info.parentEntryID), info.entryType))
      && parent.Some? && parent.value.entryID == info.parentEntryID
      && (parentOwner.Some? ==> parent.value.ownerNodeID == parentOwner.value)
  {
    var handleType, len := EncodeHandle(info, parentOwner, buf, 7);
    entry := HandleToEntry(buf, len, handleType);
    parent := HandleToParent(buf, len, handleType);
    RootTestIsExact(buf.entry);
  }
}
