/** Data items as sections 3.1 and 3.2 of RFC 8949 encode them, and a reader that skips one item. */
module CborItem {
  import opened Prelude

  // ---- big-endian numbers ----

  function Pow256(k: nat): nat {
    if k == 0 then 1 else 256 * Pow256(k - 1)
  }

  function ToBigEndian(k: nat, n: nat): (s: Bytes)
    ensures |s| == k
  {
    if k == 0 then [] else ToBigEndian(k - 1, n / 256) + [n % 256]
  }

  function FromBigEndian(s: Bytes): nat {
    if s == [] then 0 else 256 * FromBigEndian(s[..|s| - 1]) + s[|s| - 1]
  }

  lemma {:induction false} NumberRoundTrip(k: nat, n: nat)
    requires n < Pow256(k)
    ensures FromBigEndian(ToBigEndian(k, n)) == n
  {
    if k > 0 {
      NumberRoundTrip(k - 1, n / 256);
      var s := ToBigEndian(k, n);
      assert s[..|s| - 1] == ToBigEndian(k - 1, n / 256);
    }
  }

  lemma {:induction false} BytesRoundTrip(s: Bytes)
    ensures FromBigEndian(s) < Pow256(|s|) && ToBigEndian(|s|, FromBigEndian(s)) == s
  {
    if s != [] {
      var n := |s| - 1;
      BytesRoundTrip(s[..n]);
      assert FromBigEndian(s) / 256 == FromBigEndian(s[..n]) && FromBigEndian(s) % 256 == s[n];
    }
  }

  // ---- heads ----

  /** How the argument of a head is written: in the initial byte, or in the bytes after it. */
  datatype Width = Immediate | One | Two | Four | Eight

  function Size(w: Width): nat {
    match w case Immediate => 0 case One => 1 case Two => 2 case Four => 4 case Eight => 8
  }

  function Info(w: Width, n: nat): nat {
    match w case Immediate => n case One => 24 case Two => 25 case Four => 26 case Eight => 27
  }

  predicate Fits(w: Width, n: nat) {
    if w.Immediate? then n < 24 else n < Pow256(Size(w))
  }

  type Major = m: int | 0 <= m < 8

  function EncodeHead(major: Major, w: Width, n: nat): (s: Bytes)
    requires Fits(w, n)
    ensures |s| == 1 + Size(w) && s[0] / 32 == major && s[0] % 32 == Info(w, n)
  {
    [32 * major + Info(w, n)] + ToBigEndian(Size(w), n)
  }

  function OpenHead(major: Major): (s: Bytes)
    ensures |s| == 1 && s[0] / 32 == major && s[0] % 32 == 31
  {
    [32 * major + 31]
  }

  datatype Error = Malformed | DuplicateKeys | InvalidSolcType | InvalidSolcVersion

  /** An argument, or none for an indefinite length. */
  datatype Head = Head(major: Major, width: Width, arg: Option<nat>)

  function WidthOf(info: nat): Width {
    if info == 24 then One else if info == 25 then Two else if info == 26 then Four
    else if info == 27 then Eight else Immediate
  }

  function ReadHead(s: Bytes): (r: Result<(Head, Bytes), Error>)
    ensures r.Ok? ==> |r.value.1| < |s|
  {
    if s == [] then Err(Malformed)
    else
      var major, info := s[0] / 32, s[0] % 32;
      var w := WidthOf(info);
      if info < 24 then Ok((Head(major, Immediate, Some(info)), s[1..]))
      else if info == 31 then Ok((Head(major, Immediate, None), s[1..]))
      else if w.Immediate? || |s| < 1 + Size(w) then Err(Malformed)
      else Ok((Head(major, w, Some(FromBigEndian(s[1..1 + Size(w)]))), s[1 + Size(w)..]))
  }

  /** The bytes of a number, the most significant first. */
  function Word(high: nat, low: nat): nat {
    256 * high + low
  }

  function Word4(d: Bytes): nat
    requires |d| >= 4
  {
    Word(Word(Word(d[0], d[1]), d[2]), d[3])
  }

  /** The layout of a head as the standard draws it: the high three bits of the initial byte are the major type; the low
      five are the argument if below 24, announce one, two, four or eight bytes of it for 24 to 27, are reserved for 28
      to 30, and give no argument for 31. */
  lemma HeadLayout(major: Major, low: nat, rest: Bytes)
    requires low < 32
    ensures var r := ReadHead([32 * major + low] + rest);
            && (low < 24 ==> r == Ok((Head(major, Immediate, Some(low)), rest)))
            && (low == 24 && |rest| >= 1 ==> r == Ok((Head(major, One, Some(rest[0])), rest[1..])))
            && (low == 25 && |rest| >= 2 ==> r == Ok((Head(major, Two, Some(Word(rest[0], rest[1]))), rest[2..])))
            && (low == 26 && |rest| >= 4 ==> r == Ok((Head(major, Four, Some(Word4(rest))), rest[4..])))
            && (low == 27 && |rest| >= 8 ==>
                  r == Ok((Head(major, Eight, Some(0x1_0000_0000 * Word4(rest) + Word4(rest[4..]))), rest[8..])))
            && (low == 31 ==> r == Ok((Head(major, Immediate, None), rest)))
            && (r.Err? <==> || 28 <= low <= 30 || (low == 24 && |rest| < 1) || (low == 25 && |rest| < 2)
                            || (low == 26 && |rest| < 4) || (low == 27 && |rest| < 8))
  {
    var s := [32 * major + low] + rest;
    assert s[0] / 32 == major && s[0] % 32 == low && s[1..] == rest;
    if low == 24 && |rest| >= 1 {
      assert s[1..2] == rest[..1] && s[2..] == rest[1..];
      DigitsTwo(rest, 1);
    } else if low == 25 && |rest| >= 2 {
      assert s[1..3] == rest[..2] && s[3..] == rest[2..];
      DigitsTwo(rest, 2);
    } else if low == 26 && |rest| >= 4 {
      assert s[1..5] == rest[..4] && s[5..] == rest[4..];
      DigitsFour(rest);
    } else if low == 27 && |rest| >= 8 {
      assert s[1..9] == rest[..8] && s[9..] == rest[8..];
      DigitsEight(rest);
    }
  }

  /** One more byte. */
  lemma Digit(d: Bytes, n: nat)
    requires n < |d|
    ensures FromBigEndian(d[..n + 1]) == Word(FromBigEndian(d[..n]), d[n])
  {
    assert d[..n + 1][..n] == d[..n];
  }

  lemma DigitsTwo(d: Bytes, n: nat)
    requires n <= |d| && (n == 1 || n == 2)
    ensures FromBigEndian(d[..n]) == if n == 1 then d[0] else Word(d[0], d[1])
  {
    Digit(d, 0);
    if n == 2 {
      Digit(d, 1);
    }
  }

  lemma DigitsFour(d: Bytes)
    requires |d| >= 4
    ensures FromBigEndian(d[..4]) == Word4(d)
  {
    DigitsTwo(d, 2);
    Digit(d, 2);
    Digit(d, 3);
  }

  lemma DigitsEight(d: Bytes)
    requires |d| >= 8
    ensures FromBigEndian(d[..8]) == 0x1_0000_0000 * Word4(d) + Word4(d[4..])
  {
    DigitsFour(d);
    Digit(d, 4);
    Digit(d, 5);
    Digit(d, 6);
    Digit(d, 7);
  }

  lemma HeadParts(first: byte, digits: Bytes, tail: Bytes)
    ensures var s := [first] + digits + tail;
            s[0] == first && s[1..1 + |digits|] == digits && s[1 + |digits|..] == tail
  {
  }

  lemma LongHeadRead(s: Bytes, major: Major, w: Width, n: nat, tail: Bytes)
    requires !w.Immediate? && |s| >= 1 + Size(w) && s[0] / 32 == major && s[0] % 32 == Info(w, n)
    requires FromBigEndian(s[1..1 + Size(w)]) == n && s[1 + Size(w)..] == tail
    ensures ReadHead(s) == Ok((Head(major, w, Some(n)), tail))
  {
  }

  lemma HeadRead(major: Major, w: Width, n: nat, tail: Bytes)
    requires Fits(w, n)
    ensures ReadHead(EncodeHead(major, w, n) + tail) == Ok((Head(major, w, Some(n)), tail))
  {
    var h := EncodeHead(major, w, n);
    HeadParts(h[0], ToBigEndian(Size(w), n), tail);
    if w.Immediate? {
      assert (h + tail)[1..] == tail;
    } else {
      NumberRoundTrip(Size(w), n);
      LongHeadRead(h + tail, major, w, n, tail);
    }
  }

  lemma OpenHeadRead(major: Major, tail: Bytes)
    ensures ReadHead(OpenHead(major) + tail) == Ok((Head(major, Immediate, None), tail))
  {
    var s := OpenHead(major) + tail;
    assert s[0] == OpenHead(major)[0] && s[1..] == tail;
  }

  lemma FirstByte(first: byte)
    ensures first == 32 * (first / 32) + first % 32
  {
  }

  lemma LongHeadWritten(s: Bytes, h: Head, rest: Bytes)
    requires ReadHead(s) == Ok((h, rest)) && h.arg.Some? && !h.width.Immediate?
    ensures Fits(h.width, h.arg.value) && s == EncodeHead(h.major, h.width, h.arg.value) + rest
  {
    var digits := s[1..1 + Size(h.width)];
    BytesRoundTrip(digits);
    FirstByte(s[0]);
    assert s == [s[0]] + digits + rest;
  }

  lemma ShortHeadWritten(s: Bytes, h: Head, rest: Bytes)
    requires ReadHead(s) == Ok((h, rest)) && h.width.Immediate?
    ensures match h.arg
            case None => s == OpenHead(h.major) + rest
            case Some(n) => Fits(h.width, n) && s == EncodeHead(h.major, h.width, n) + rest
  {
    FirstByte(s[0]);
    assert s == [s[0]] + s[1..];
  }

  /** A head that can be read is one of the two written forms. */
  lemma HeadWritten(s: Bytes)
    requires ReadHead(s).Ok?
    ensures var (h, rest) := ReadHead(s).value;
            match h.arg
            case None => s == OpenHead(h.major) + rest
            case Some(n) => Fits(h.width, n) && s == EncodeHead(h.major, h.width, n) + rest
  {
    var (h, rest) := ReadHead(s).value;
    if h.width.Immediate? {
      ShortHeadWritten(s, h, rest);
    } else {
      LongHeadWritten(s, h, rest);
    }
  }

  // ---- items ----

  /** Data items, each with the width its head is written in. */
  datatype Item =
    | Atom(major: Major, width: Width, n: nat)
    | Str(major: Major, width: Width, data: Bytes)
    | Chunked(major: Major, chunks: seq<Chunk>)
    | List(major: Major, width: Width, items: Items)
    | OpenList(major: Major, items: Items)
    | Tagged(width: Width, n: nat, item: Item)

  datatype Chunk = Chunk(width: Width, data: Bytes)

  datatype Items = End | More(first: Item, rest: Items)

  function Count(items: Items): nat {
    match items case End => 0 case More(_, rest) => 1 + Count(rest)
  }

  /** Tells which byte strings are valid text. */
  type Utf8 = Bytes -> bool

  predicate ValidString(utf8: Utf8, major: Major, width: Width, data: Bytes) {
    (major == 2 || major == 3) && Fits(width, |data|) && (major == 3 ==> utf8(data))
  }

  predicate ValidChunks(utf8: Utf8, major: Major, chunks: seq<Chunk>) {
    forall i :: 0 <= i < |chunks| ==> ValidString(utf8, major, chunks[i].width, chunks[i].data)
  }

  /** Integers and simple values, strings whole or in chunks, arrays and maps of known or open length, tags.
      A map lists its keys and values alternately. */
  predicate Valid(utf8: Utf8, item: Item) {
    match item
    case Atom(major, w, n) => (major == 0 || major == 1 || major == 7) && Fits(w, n)
    case Str(major, w, data) => ValidString(utf8, major, w, data)
    case Chunked(major, chunks) => (major == 2 || major == 3) && ValidChunks(utf8, major, chunks)
    case List(major, w, items) =>
      && (major == 4 || major == 5) && ValidItems(utf8, items)
      && (major == 5 ==> Count(items) % 2 == 0) && Fits(w, Entries(major, Count(items)))
    case OpenList(major, items) =>
      (major == 4 || major == 5) && ValidItems(utf8, items) && (major == 5 ==> Count(items) % 2 == 0)
    case Tagged(w, n, inner) => Fits(w, n) && Valid(utf8, inner)
  }

  predicate ValidItems(utf8: Utf8, items: Items) {
    items.More? ==> Valid(utf8, items.first) && ValidItems(utf8, items.rest)
  }

  /** The length a head declares for that many items. */
  function Entries(major: Major, count: nat): nat {
    if major == 5 then count / 2 else count
  }

  function EncodeChunks(utf8: Utf8, major: Major, chunks: seq<Chunk>): Bytes
    requires ValidChunks(utf8, major, chunks)
  {
    if chunks == [] then [0xff]
    else EncodeHead(major, chunks[0].width, |chunks[0].data|) + chunks[0].data
         + EncodeChunks(utf8, major, chunks[1..])
  }

  function Encode(utf8: Utf8, item: Item): (s: Bytes)
    requires Valid(utf8, item)
    ensures s != []
  {
    match item
    case Atom(major, w, n) => EncodeHead(major, w, n)
    case Str(major, w, data) => EncodeHead(major, w, |data|) + data
    case Chunked(major, chunks) => OpenHead(major) + EncodeChunks(utf8, major, chunks)
    case List(major, w, items) => EncodeHead(major, w, Entries(major, Count(items))) + EncodeItems(utf8, items)
    case OpenList(major, items) => OpenHead(major) + (EncodeItems(utf8, items) + [0xff])
    case Tagged(w, n, inner) => EncodeHead(6, w, n) + Encode(utf8, inner)
  }

  function EncodeItems(utf8: Utf8, items: Items): Bytes
    requires ValidItems(utf8, items)
  {
    match items case End => [] case More(first, rest) => Encode(utf8, first) + EncodeItems(utf8, rest)
  }

  // ---- skipping ----

  /** The content of a string of known length and what follows it. */
  function ReadString(utf8: Utf8, major: Major, s: Bytes): (r: Result<(Bytes, Bytes), Error>)
    ensures r.Ok? ==> |r.value.1| < |s|
  {
    match ReadHead(s)
    case Err(e) => Err(e)
    case Ok((h, rest)) =>
      if h.major != major || h.arg.None? || |rest| < h.arg.value then Err(Malformed)
      else if major == 3 && !utf8(rest[..h.arg.value]) then Err(Malformed)
      else Ok((rest[..h.arg.value], rest[h.arg.value..]))
  }

  function SkipChunks(utf8: Utf8, major: Major, s: Bytes): (r: Result<Bytes, Error>)
    ensures r.Ok? ==> |r.value| < |s|
    decreases |s|
  {
    if s == [] then Err(Malformed)
    else if s[0] == 0xff then Ok(s[1..])
    else match ReadString(utf8, major, s)
      case Err(e) => Err(e)
      case Ok((_, rest)) => SkipChunks(utf8, major, rest)
  }

  /** What follows the first item. */
  function Skip(utf8: Utf8, s: Bytes): (r: Result<Bytes, Error>)
    ensures r.Ok? ==> |r.value| < |s|
    decreases |s|, 0
  {
    match ReadHead(s)
    case Err(e) => Err(e)
    case Ok((h, rest)) =>
      if h.arg.None? then
        if h.major == 2 || h.major == 3 then SkipChunks(utf8, h.major, rest)
        else if h.major == 4 || h.major == 5 then SkipOpen(utf8, h.major, rest)
        else Err(Malformed)
      else if h.major == 2 || h.major == 3 then
        match ReadString(utf8, h.major, s) case Err(e) => Err(e) case Ok((_, after)) => Ok(after)
      else if h.major == 4 then SkipMany(utf8, rest, h.arg.value)
      else if h.major == 5 then SkipMany(utf8, rest, 2 * h.arg.value)
      else if h.major == 6 then Skip(utf8, rest)
      else Ok(rest)
  }

  function SkipMany(utf8: Utf8, s: Bytes, n: nat): (r: Result<Bytes, Error>)
    ensures r.Ok? ==> |r.value| <= |s| && (n > 0 ==> |r.value| < |s|)
    decreases |s|, 1, n
  {
    if n == 0 then Ok(s)
    else match Skip(utf8, s)
      case Err(e) => Err(e)
      case Ok(rest) => SkipMany(utf8, rest, n - 1)
  }

  /** Items up to a break, which may not separate a key from its value. */
  function SkipOpen(utf8: Utf8, major: Major, s: Bytes): (r: Result<Bytes, Error>)
    ensures r.Ok? ==> |r.value| < |s|
    decreases |s|, 2, 0
  {
    if s == [] then Err(Malformed)
    else if s[0] == 0xff then Ok(s[1..])
    else match SkipMany(utf8, s, if major == 5 then 2 else 1)
      case Err(e) => Err(e)
      case Ok(rest) => SkipOpen(utf8, major, rest)
  }

  // ---- an encoded item is skipped whole ----

  lemma StringRead(utf8: Utf8, major: Major, w: Width, data: Bytes, tail: Bytes)
    requires ValidString(utf8, major, w, data)
    ensures ReadString(utf8, major, EncodeHead(major, w, |data|) + data + tail) == Ok((data, tail))
  {
    var head := EncodeHead(major, w, |data|);
    HeadRead(major, w, |data|, data + tail);
    assert head + data + tail == head + (data + tail);
    assert (data + tail)[..|data|] == data && (data + tail)[|data|..] == tail;
  }

  lemma {:induction false} ChunksSkipped(utf8: Utf8, major: Major, chunks: seq<Chunk>, tail: Bytes)
    requires (major == 2 || major == 3) && ValidChunks(utf8, major, chunks)
    ensures SkipChunks(utf8, major, EncodeChunks(utf8, major, chunks) + tail) == Ok(tail)
  {
    if chunks == [] {
      assert ([0xff] + tail)[1..] == tail;
    } else {
      var c := chunks[0];
      var head := EncodeHead(major, c.width, |c.data|);
      var more := EncodeChunks(utf8, major, chunks[1..]);
      ChunksSkipped(utf8, major, chunks[1..], tail);
      StringRead(utf8, major, c.width, c.data, more + tail);
      assert head + c.data + more + tail == head + c.data + (more + tail);
      assert (head + c.data + (more + tail))[0] == head[0];
    }
  }

  lemma StringSkipped(utf8: Utf8, major: Major, w: Width, data: Bytes, tail: Bytes)
    requires ValidString(utf8, major, w, data)
    ensures Skip(utf8, EncodeHead(major, w, |data|) + data + tail) == Ok(tail)
  {
    StringRead(utf8, major, w, data, tail);
    HeadRead(major, w, |data|, data + tail);
    Regroup(EncodeHead(major, w, |data|), data, tail);
  }

  lemma ListSkipped(utf8: Utf8, major: Major, w: Width, count: nat, content: Bytes, tail: Bytes)
    requires (major == 4 || major == 5) && (major == 5 ==> count % 2 == 0) && Fits(w, Entries(major, count))
    requires SkipMany(utf8, content + tail, count) == Ok(tail)
    ensures Skip(utf8, EncodeHead(major, w, Entries(major, count)) + content + tail) == Ok(tail)
  {
    HeadRead(major, w, Entries(major, count), content + tail);
    Regroup(EncodeHead(major, w, Entries(major, count)), content, tail);
  }

  lemma OpenedSkipped(utf8: Utf8, major: Major, content: Bytes, tail: Bytes)
    requires 2 <= major <= 5
    requires if major <= 3 then SkipChunks(utf8, major, content + tail) == Ok(tail)
             else SkipOpen(utf8, major, content + tail) == Ok(tail)
    ensures Skip(utf8, OpenHead(major) + content + tail) == Ok(tail)
  {
    OpenHeadRead(major, content + tail);
    Regroup(OpenHead(major), content, tail);
  }

  lemma TaggedSkipped(utf8: Utf8, w: Width, n: nat, content: Bytes, tail: Bytes)
    requires Fits(w, n) && Skip(utf8, content + tail) == Ok(tail)
    ensures Skip(utf8, EncodeHead(6, w, n) + content + tail) == Ok(tail)
  {
    HeadRead(6, w, n, content + tail);
    Regroup(EncodeHead(6, w, n), content, tail);
  }

  /** A well-formed item is skipped whole, whatever follows it. */
  lemma {:induction false} ItemSkipped(utf8: Utf8, item: Item, tail: Bytes)
    requires Valid(utf8, item)
    ensures Skip(utf8, Encode(utf8, item) + tail) == Ok(tail)
    decreases item
  {
    match item
    case Atom(major, w, n) => HeadRead(major, w, n, tail);
    case Str(major, w, data) => StringSkipped(utf8, major, w, data, tail);
    case Chunked(major, chunks) =>
      ChunksSkipped(utf8, major, chunks, tail);
      OpenedSkipped(utf8, major, EncodeChunks(utf8, major, chunks), tail);
    case List(major, w, items) =>
      ItemsSkipped(utf8, items, tail);
      ListSkipped(utf8, major, w, Count(items), EncodeItems(utf8, items), tail);
    case OpenList(major, items) =>
      OpenSkipped(utf8, major, items, tail);
      OpenedSkipped(utf8, major, EncodeItems(utf8, items) + [0xff], tail);
    case Tagged(w, n, inner) =>
      ItemSkipped(utf8, inner, tail);
      TaggedSkipped(utf8, w, n, Encode(utf8, inner), tail);
  }

  lemma Regroup(a: Bytes, b: Bytes, c: Bytes)
    ensures a + b + c == a + (b + c)
  {
  }

  lemma {:induction false} ItemsSkipped(utf8: Utf8, items: Items, tail: Bytes)
    requires ValidItems(utf8, items)
    ensures SkipMany(utf8, EncodeItems(utf8, items) + tail, Count(items)) == Ok(tail)
    decreases items
  {
    match items
    case End => assert [] + tail == tail;
    case More(first, rest) =>
      var after := EncodeItems(utf8, rest) + tail;
      ItemSkipped(utf8, first, after);
      ItemsSkipped(utf8, rest, tail);
      Regroup(Encode(utf8, first), EncodeItems(utf8, rest), tail);
      ManyMore(utf8, Encode(utf8, first) + after, after, Count(rest), tail);
  }

  lemma ManyMore(utf8: Utf8, s: Bytes, after: Bytes, n: nat, tail: Bytes)
    requires Skip(utf8, s) == Ok(after) && SkipMany(utf8, after, n) == Ok(tail)
    ensures SkipMany(utf8, s, 1 + n) == Ok(tail)
  {
  }

  /** No item starts like a break. */
  lemma NotBreak(utf8: Utf8, item: Item)
    requires Valid(utf8, item)
    ensures Encode(utf8, item)[0] != 0xff
  {
  }

  lemma ManyOf(utf8: Utf8, s: Bytes, middle: Bytes, rest: Bytes)
    requires Skip(utf8, s) == Ok(middle)
    ensures SkipMany(utf8, s, 1) == Ok(middle)
    ensures Skip(utf8, middle) == Ok(rest) ==> SkipMany(utf8, s, 2) == Ok(rest)
  {
    assert SkipMany(utf8, middle, 0) == Ok(middle) && SkipMany(utf8, rest, 0) == Ok(rest);
    assert Skip(utf8, middle) == Ok(rest) ==> SkipMany(utf8, middle, 1) == Ok(rest);
  }

  lemma OpenStep(utf8: Utf8, major: Major, s: Bytes, after: Bytes, tail: Bytes)
    requires s != [] && s[0] != 0xff && SkipMany(utf8, s, if major == 5 then 2 else 1) == Ok(after)
    requires SkipOpen(utf8, major, after) == Ok(tail)
    ensures SkipOpen(utf8, major, s) == Ok(tail)
  {
  }

  /** One more item before what a break ends. */
  lemma OpenOne(utf8: Utf8, major: Major, item: Item, after: Bytes, tail: Bytes)
    requires Valid(utf8, item) && major != 5 && SkipOpen(utf8, major, after) == Ok(tail)
    requires Skip(utf8, Encode(utf8, item) + after) == Ok(after)
    ensures SkipOpen(utf8, major, Encode(utf8, item) + after) == Ok(tail)
  {
    var s := Encode(utf8, item) + after;
    NotBreak(utf8, item);
    assert s[0] == Encode(utf8, item)[0];
    ManyOf(utf8, s, after, []);
    OpenStep(utf8, major, s, after, tail);
  }

  /** One more key and value before what a break ends. */
  lemma OpenTwo(utf8: Utf8, key: Item, value: Bytes, after: Bytes, tail: Bytes)
    requires Valid(utf8, key) && SkipOpen(utf8, 5, after) == Ok(tail)
    requires Skip(utf8, Encode(utf8, key) + (value + after)) == Ok(value + after)
    requires Skip(utf8, value + after) == Ok(after)
    ensures SkipOpen(utf8, 5, Encode(utf8, key) + (value + after)) == Ok(tail)
  {
    var s := Encode(utf8, key) + (value + after);
    NotBreak(utf8, key);
    assert s[0] == Encode(utf8, key)[0];
    ManyOf(utf8, s, value + after, after);
    OpenStep(utf8, 5, s, after, tail);
  }

  /** Items up to a break, and what follows the break. */
  ghost function Ended(utf8: Utf8, items: Items, tail: Bytes): Bytes
    requires ValidItems(utf8, items)
  {
    EncodeItems(utf8, items) + [0xff] + tail
  }

  lemma EndedMore(utf8: Utf8, first: Item, rest: Items, tail: Bytes)
    requires Valid(utf8, first) && ValidItems(utf8, rest)
    ensures Ended(utf8, More(first, rest), tail) == Encode(utf8, first) + Ended(utf8, rest, tail)
  {
    Regroup(Encode(utf8, first), EncodeItems(utf8, rest), [0xff]);
    Regroup(Encode(utf8, first), EncodeItems(utf8, rest) + [0xff], tail);
  }

  lemma {:induction false} OpenSkipped(utf8: Utf8, major: Major, items: Items, tail: Bytes)
    requires ValidItems(utf8, items) && (major == 5 ==> Count(items) % 2 == 0)
    ensures SkipOpen(utf8, major, Ended(utf8, items, tail)) == Ok(tail)
    decreases items
  {
    match items
    case End => assert ([] + [0xff] + tail)[1..] == tail;
    case More(first, rest) =>
      EndedMore(utf8, first, rest, tail);
      if major == 5 {
        var second, more := rest.first, rest.rest;
        EndedMore(utf8, second, more, tail);
        OpenSkipped(utf8, major, more, tail);
        var after := Ended(utf8, more, tail);
        ItemSkipped(utf8, second, after);
        ItemSkipped(utf8, first, Encode(utf8, second) + after);
        OpenTwo(utf8, first, Encode(utf8, second), after, tail);
      } else {
        OpenSkipped(utf8, major, rest, tail);
        ItemSkipped(utf8, first, Ended(utf8, rest, tail));
        OpenOne(utf8, major, first, Ended(utf8, rest, tail), tail);
      }
  }

  // ---- what is skipped is an encoded item ----

  lemma StringWritten(utf8: Utf8, major: Major, s: Bytes) returns (w: Width)
    requires (major == 2 || major == 3) && ReadString(utf8, major, s).Ok?
    ensures var (data, rest) := ReadString(utf8, major, s).value;
            ValidString(utf8, major, w, data) && s == EncodeHead(major, w, |data|) + data + rest
  {
    HeadWritten(s);
    var (h, after) := ReadHead(s).value;
    w := h.width;
    var n := h.arg.value;
    assert after == after[..n] + after[n..];
    Regroup(EncodeHead(major, w, n), after[..n], after[n..]);
  }

  lemma ChunkBefore(utf8: Utf8, major: Major, c: Chunk, more: seq<Chunk>, tail: Bytes)
    requires (major == 2 || major == 3) && ValidString(utf8, major, c.width, c.data) && ValidChunks(utf8, major, more)
    ensures ValidChunks(utf8, major, [c] + more)
    ensures EncodeChunks(utf8, major, [c] + more) + tail
            == EncodeHead(major, c.width, |c.data|) + c.data + (EncodeChunks(utf8, major, more) + tail)
  {
    assert ([c] + more)[1..] == more;
    Regroup(EncodeHead(major, c.width, |c.data|) + c.data, EncodeChunks(utf8, major, more), tail);
  }

  lemma {:induction false} ChunksWritten(utf8: Utf8, major: Major, s: Bytes) returns (chunks: seq<Chunk>)
    requires (major == 2 || major == 3) && SkipChunks(utf8, major, s).Ok?
    ensures ValidChunks(utf8, major, chunks)
    ensures s == EncodeChunks(utf8, major, chunks) + SkipChunks(utf8, major, s).value
    decreases |s|
  {
    if s[0] == 0xff {
      chunks := [];
      assert s == [0xff] + s[1..];
    } else {
      var w := StringWritten(utf8, major, s);
      var (data, rest) := ReadString(utf8, major, s).value;
      var more := ChunksWritten(utf8, major, rest);
      chunks := [Chunk(w, data)] + more;
      ChunkBefore(utf8, major, Chunk(w, data), more, SkipChunks(utf8, major, rest).value);
    }
  }

  lemma EncodedList(utf8: Utf8, major: Major, w: Width, n: nat, items: Items)
    requires (major == 4 || major == 5) && ValidItems(utf8, items) && Fits(w, n)
    requires Count(items) == if major == 5 then 2 * n else n
    ensures Valid(utf8, List(major, w, items))
    ensures Encode(utf8, List(major, w, items)) == EncodeHead(major, w, n) + EncodeItems(utf8, items)
  {
    assert Entries(major, Count(items)) == n;
  }

  lemma ListBuilt(utf8: Utf8, major: Major, w: Width, n: nat, items: Items, rest: Bytes)
    requires (major == 4 || major == 5) && ValidItems(utf8, items) && Fits(w, n)
    requires Count(items) == if major == 5 then 2 * n else n
    ensures Valid(utf8, List(major, w, items))
    ensures Encode(utf8, List(major, w, items)) + rest == EncodeHead(major, w, n) + (EncodeItems(utf8, items) + rest)
  {
    EncodedList(utf8, major, w, n, items);
    Regroup(EncodeHead(major, w, n), EncodeItems(utf8, items), rest);
  }

  lemma OpenListBuilt(utf8: Utf8, major: Major, items: Items, rest: Bytes)
    requires (major == 4 || major == 5) && ValidItems(utf8, items) && (major == 5 ==> Count(items) % 2 == 0)
    ensures Encode(utf8, OpenList(major, items)) + rest == OpenHead(major) + (EncodeItems(utf8, items) + [0xff] + rest)
  {
    Regroup(OpenHead(major), EncodeItems(utf8, items) + [0xff], rest);
  }

  lemma ChunkedBuilt(utf8: Utf8, major: Major, chunks: seq<Chunk>, rest: Bytes)
    requires (major == 2 || major == 3) && ValidChunks(utf8, major, chunks)
    ensures Encode(utf8, Chunked(major, chunks)) + rest == OpenHead(major) + (EncodeChunks(utf8, major, chunks) + rest)
  {
    Regroup(OpenHead(major), EncodeChunks(utf8, major, chunks), rest);
  }

  lemma TaggedBuilt(utf8: Utf8, w: Width, n: nat, inner: Item, rest: Bytes)
    requires Fits(w, n) && Valid(utf8, inner)
    ensures Encode(utf8, Tagged(w, n, inner)) + rest == EncodeHead(6, w, n) + (Encode(utf8, inner) + rest)
  {
    Regroup(EncodeHead(6, w, n), Encode(utf8, inner), rest);
  }

  lemma {:induction false} OpenItemWritten(utf8: Utf8, s: Bytes, major: Major, after: Bytes) returns (item: Item)
    requires ReadHead(s) == Ok((Head(major, Immediate, None), after)) && Skip(utf8, s).Ok?
    ensures Valid(utf8, item) && Encode(utf8, item) + Skip(utf8, s).value == OpenHead(major) + after
    decreases |s|, 0, 0
  {
    if major <= 3 {
      var chunks := ChunksWritten(utf8, major, after);
      item := Chunked(major, chunks);
      ChunkedBuilt(utf8, major, chunks, Skip(utf8, s).value);
    } else {
      var items := OpenWritten(utf8, major, after);
      item := OpenList(major, items);
      OpenListBuilt(utf8, major, items, Skip(utf8, s).value);
    }
  }

  /** Whatever can be skipped is a well-formed item. */
  lemma {:induction false} ItemWritten(utf8: Utf8, s: Bytes) returns (item: Item)
    requires Skip(utf8, s).Ok?
    ensures Valid(utf8, item) && s == Encode(utf8, item) + Skip(utf8, s).value
    decreases |s|, 0, 1
  {
    HeadWritten(s);
    var (h, after) := ReadHead(s).value;
    var major := h.major;
    if h.arg.None? {
      item := OpenItemWritten(utf8, s, major, after);
    } else if major == 2 || major == 3 {
      var w := StringWritten(utf8, major, s);
      item := Str(major, w, ReadString(utf8, major, s).value.0);
    } else if major == 4 || major == 5 {
      var n := h.arg.value;
      var items := ItemsWritten(utf8, after, if major == 5 then 2 * n else n);
      item := List(major, h.width, items);
      ListBuilt(utf8, major, h.width, n, items, Skip(utf8, s).value);
    } else if major == 6 {
      var inner := ItemWritten(utf8, after);
      item := Tagged(h.width, h.arg.value, inner);
      TaggedBuilt(utf8, h.width, h.arg.value, inner, Skip(utf8, s).value);
    } else {
      item := Atom(major, h.width, h.arg.value);
    }
  }

  lemma {:induction false} ItemsWritten(utf8: Utf8, s: Bytes, n: nat) returns (items: Items)
    requires SkipMany(utf8, s, n).Ok?
    ensures ValidItems(utf8, items) && Count(items) == n
    ensures s == EncodeItems(utf8, items) + SkipMany(utf8, s, n).value
    decreases |s|, 1, n
  {
    if n == 0 {
      items := End;
    } else {
      var first := ItemWritten(utf8, s);
      var rest := ItemsWritten(utf8, Skip(utf8, s).value, n - 1);
      items := More(first, rest);
      Regroup(Encode(utf8, first), EncodeItems(utf8, rest), SkipMany(utf8, s, n).value);
    }
  }

  function Append(a: Items, b: Items): Items {
    match a case End => b case More(first, rest) => More(first, Append(rest, b))
  }

  lemma {:induction false} AppendEncoded(utf8: Utf8, a: Items, b: Items)
    requires ValidItems(utf8, a) && ValidItems(utf8, b)
    ensures ValidItems(utf8, Append(a, b)) && Count(Append(a, b)) == Count(a) + Count(b)
    ensures EncodeItems(utf8, Append(a, b)) == EncodeItems(utf8, a) + EncodeItems(utf8, b)
  {
    match a
    case End => assert [] + EncodeItems(utf8, b) == EncodeItems(utf8, b);
    case More(first, rest) =>
      AppendEncoded(utf8, rest, b);
      Regroup(Encode(utf8, first), EncodeItems(utf8, rest), EncodeItems(utf8, b));
  }

  lemma EndedAppend(utf8: Utf8, a: Items, b: Items, tail: Bytes)
    requires ValidItems(utf8, a) && ValidItems(utf8, b)
    ensures ValidItems(utf8, Append(a, b)) && Count(Append(a, b)) == Count(a) + Count(b)
    ensures Ended(utf8, Append(a, b), tail) == EncodeItems(utf8, a) + Ended(utf8, b, tail)
  {
    AppendEncoded(utf8, a, b);
    Regroup(EncodeItems(utf8, a), EncodeItems(utf8, b), [0xff]);
    Regroup(EncodeItems(utf8, a), EncodeItems(utf8, b) + [0xff], tail);
  }

  lemma {:induction false} OpenWritten(utf8: Utf8, major: Major, s: Bytes) returns (items: Items)
    requires SkipOpen(utf8, major, s).Ok?
    ensures ValidItems(utf8, items) && (major == 5 ==> Count(items) % 2 == 0)
    ensures s == Ended(utf8, items, SkipOpen(utf8, major, s).value)
    decreases |s|, 2, 0
  {
    if s[0] == 0xff {
      items := End;
      assert s == [] + [0xff] + s[1..];
    } else {
      var n := if major == 5 then 2 else 1;
      var a := ItemsWritten(utf8, s, n);
      var b := OpenWritten(utf8, major, SkipMany(utf8, s, n).value);
      items := Append(a, b);
      EndedAppend(utf8, a, b, SkipOpen(utf8, major, s).value);
    }
  }

  /** Skipping is exact: it leaves `rest` precisely when `rest` follows a well-formed item. */
  lemma SkipIff(utf8: Utf8, s: Bytes, rest: Bytes)
    ensures Skip(utf8, s) == Ok(rest) <==> exists item :: Valid(utf8, item) && s == Encode(utf8, item) + rest
  {
    if Skip(utf8, s) == Ok(rest) {
      var item := ItemWritten(utf8, s);
    }
    if item :| Valid(utf8, item) && s == Encode(utf8, item) + rest {
      ItemSkipped(utf8, item, rest);
    }
  }
}
