/** The metadata hash that solc appends to bytecode: a CBOR map of which only `solc` is of interest. */
module Metadata {
  import opened Prelude
  import opened CborItem

  /** A semantic version; `suffix` stands for the pre-release and build parts. */
  datatype Version = Version(major: nat, minor: nat, patch: nat, suffix: Bytes)

  /** What the decoder relies on: text validity and version parsing. */
  datatype Text = Text(utf8: Utf8, semver: Bytes -> Option<Version>)

  const SOLC: Bytes := [0x73, 0x6f, 0x6c, 0x63]

  const U64_MAX: nat := 0xffff_ffff_ffff_ffff

  type Solc = Option<Version>

  function Release(bytes: Bytes): Result<Version, Error> {
    if |bytes| != 3 then Err(InvalidSolcVersion) else Ok(Version(bytes[0], bytes[1], bytes[2], []))
  }

  function Prerelease(text: Text, s: Bytes): Result<Version, Error> {
    match text.semver(s) case None => Err(InvalidSolcVersion) case Some(v) => Ok(v)
  }

  /** The value of `solc`: three bytes, or a version in text, told apart by the initial byte. */
  function SolcValue(text: Text, s: Bytes): (r: Result<(Version, Bytes), Error>)
    ensures r.Ok? ==> |r.value.1| < |s|
  {
    if s == [] then Err(Malformed)
    else if 0x40 <= s[0] <= 0x5b then
      match ReadString(text.utf8, 2, s)
      case Err(e) => Err(e)
      case Ok((bytes, rest)) => (match Release(bytes) case Err(e) => Err(e) case Ok(v) => Ok((v, rest)))
    else if 0x60 <= s[0] <= 0x7b then
      match ReadString(text.utf8, 3, s)
      case Err(e) => Err(e)
      case Ok((chars, rest)) => (match Prerelease(text, chars) case Err(e) => Err(e) case Ok(v) => Ok((v, rest)))
    else Err(InvalidSolcType)
  }

  /** One turn of the decoding loop: a key and its value. */
  function DecodeEntry(text: Text, s: Bytes, solc: Solc): (r: Result<(Solc, Bytes), Error>)
    ensures r.Ok? ==> |r.value.1| + 2 <= |s|
  {
    match ReadString(text.utf8, 3, s)
    case Err(e) => Err(e)
    case Ok((key, rest)) =>
      if key == SOLC then
        if solc.Some? then Err(DuplicateKeys)
        else match SolcValue(text, rest)
          case Err(e) => Err(e)
          case Ok((v, after)) => Ok((Some(v), after))
      else match Skip(text.utf8, rest)
        case Err(e) => Err(e)
        case Ok(after) => Ok((solc, after))
  }

  /** The version found, if any, and the number of bytes used. */
  datatype Found = Found(solc: Solc, usedSize: int)

  type Step = (Bytes, Solc) -> Result<(Solc, Bytes), Error>

  ghost predicate Agrees(text: Text, step: Step) {
    forall s, solc {:trigger DecodeEntry(text, s, solc)} :: step(s, solc) == DecodeEntry(text, s, solc)
  }

  function EntryStep(text: Text): Step {
    (s, solc) => DecodeEntry(text, s, solc)
  }

  /** The decoding loop, over its turn. */
  function DecodeEntries(step: Step, s: Bytes, n: nat, solc: Solc): Result<(Solc, Bytes), Error>
    decreases n, |s|
  {
    if n == 0 then Ok((solc, s))
    else match step(s, solc)
      case Err(e) => Err(e)
      case Ok((next, rest)) => DecodeEntries(step, rest, n - 1, next)
  }

  /** The number of entries a map head declares, and what follows the head. */
  function ReadMap(s: Bytes): (r: Result<(Option<nat>, Bytes), Error>)
    ensures r.Ok? ==> |r.value.1| < |s|
  {
    match ReadHead(s)
    case Err(e) => Err(e)
    case Ok((h, rest)) => if h.major == 5 then Ok((h.arg, rest)) else Err(Malformed)
  }

  function Declared(count: Option<nat>): nat {
    match count case None => U64_MAX case Some(n) => n
  }

  /** The version found, and the number of bytes used. */
  function FromCbor(text: Text, encoded: Bytes): Result<Found, Error> {
    DecodeMap(EntryStep(text), encoded)
  }

  function DecodeMap(step: Step, encoded: Bytes): Result<Found, Error> {
    match ReadMap(encoded)
    case Err(e) => Err(e)
    case Ok((count, rest)) =>
      match DecodeEntries(step, rest, Declared(count), None)
      case Err(e) => Err(e)
      case Ok((solc, after)) => Ok(Found(solc, |encoded| - |after|))
  }

  // ---- the decoder object ----

  lemma SuffixOf(a: Bytes, b: Bytes)
    ensures (a + b)[|a + b| - |b|..] == b
  {
  }

  ghost predicate Suffix(rest: Bytes, s: Bytes) {
    |rest| <= |s| && s[|s| - |rest|..] == rest
  }

  lemma SuffixTransitive(a: Bytes, b: Bytes, c: Bytes)
    requires Suffix(a, b) && Suffix(b, c)
    ensures Suffix(a, c)
  {
  }

  lemma HeadSuffix(s: Bytes)
    requires ReadHead(s).Ok?
    ensures Suffix(ReadHead(s).value.1, s)
  {
  }

  lemma StringSuffix(utf8: Utf8, major: Major, s: Bytes)
    requires ReadString(utf8, major, s).Ok?
    ensures Suffix(ReadString(utf8, major, s).value.1, s)
  {
    HeadSuffix(s);
    var (h, rest) := ReadHead(s).value;
    SuffixTransitive(rest[h.arg.value..], rest, s);
  }

  lemma SkipSuffix(utf8: Utf8, s: Bytes)
    requires Skip(utf8, s).Ok?
    ensures Suffix(Skip(utf8, s).value, s)
  {
    var item := ItemWritten(utf8, s);
    SuffixOf(Encode(utf8, item), Skip(utf8, s).value);
  }

  /** A cursor over a buffer. */
  class Decoder {
    const buffer: Bytes
    var position: nat

    ghost predicate Valid()
      reads this
    {
      position <= |buffer|
    }

    /** What is still to be read. */
    function Rest(): Bytes
      requires Valid()
      reads this
    {
      buffer[position..]
    }

    constructor (encoded: Bytes)
      ensures Valid() && buffer == encoded && Rest() == encoded
    {
      buffer := encoded;
      position := 0;
    }

    method MapHead() returns (r: Result<Option<nat>, Error>)
      requires Valid()
      modifies this
      ensures Valid()
      ensures match ReadMap(old(Rest()))
              case Err(e) => r == Err(e)
              case Ok((count, rest)) => r == Ok(count) && Rest() == rest
    {
      match ReadMap(Rest()) {
        case Err(e) => r := Err(e);
        case Ok((count, rest)) =>
          HeadSuffix(Rest());
          position := |buffer| - |rest|;
          r := Ok(count);
      }
    }

    /** A string of known length. */
    method ReadStr(text: Text, major: Major) returns (r: Result<Bytes, Error>)
      requires Valid()
      modifies this
      ensures Valid()
      ensures match ReadString(text.utf8, major, old(Rest()))
              case Err(e) => r == Err(e)
              case Ok((data, rest)) => r == Ok(data) && Rest() == rest
    {
      match ReadString(text.utf8, major, Rest()) {
        case Err(e) => r := Err(e);
        case Ok((data, rest)) =>
          StringSuffix(text.utf8, major, Rest());
          position := |buffer| - |rest|;
          r := Ok(data);
      }
    }

    method SkipItem(text: Text) returns (r: Result<(), Error>)
      requires Valid()
      modifies this
      ensures Valid()
      ensures match Skip(text.utf8, old(Rest()))
              case Err(e) => r == Err(e)
              case Ok(rest) => r == Ok(()) && Rest() == rest
    {
      match Skip(text.utf8, Rest()) {
        case Err(e) => r := Err(e);
        case Ok(rest) =>
          SkipSuffix(text.utf8, Rest());
          position := |buffer| - |rest|;
          r := Ok(());
      }
    }

    method ReadSolc(text: Text) returns (r: Result<Version, Error>)
      requires Valid()
      modifies this
      ensures Valid()
      ensures match SolcValue(text, old(Rest()))
              case Err(e) => r == Err(e)
              case Ok((v, rest)) => r == Ok(v) && Rest() == rest
    {
      if position == |buffer| {
        return Err(Malformed);
      }
      var first := buffer[position];
      if 0x40 <= first <= 0x5b {
        var bytes := ReadStr(text, 2);
        match bytes {
          case Err(e) => r := Err(e);
          case Ok(b) => r := Release(b);
        }
      } else if 0x60 <= first <= 0x7b {
        var chars := ReadStr(text, 3);
        match chars {
          case Err(e) => r := Err(e);
          case Ok(c) => r := Prerelease(text, c);
        }
      } else {
        r := Err(InvalidSolcType);
      }
    }

    /** A key and its value; `solc` is what the earlier entries gave. */
    method ReadEntry(text: Text, solc: Solc, ghost step: Step) returns (r: Result<Solc, Error>)
      requires Valid() && Agrees(text, step)
      modifies this
      ensures Valid()
      ensures match step(old(Rest()), solc)
              case Err(e) => r == Err(e)
              case Ok((next, rest)) => r == Ok(next) && Rest() == rest
    {
      assert step(Rest(), solc) == DecodeEntry(text, Rest(), solc);
      var key := ReadStr(text, 3);
      if key.Err? {
        return Err(key.error);
      }
      if key.value == SOLC {
        if solc.Some? {
          return Err(DuplicateKeys);
        }
        var v := ReadSolc(text);
        r := match v case Err(e) => Err(e) case Ok(version) => Ok(Some(version));
      } else {
        var skipped := SkipItem(text);
        r := match skipped case Err(e) => Err(e) case Ok(_) => Ok(solc);
      }
    }

    /** The decoding loop. */
    method ReadEntries(text: Text, n: nat, ghost step: Step) returns (r: Result<Solc, Error>)
      requires Valid() && Agrees(text, step)
      modifies this
      ensures Valid()
      ensures match DecodeEntries(step, old(Rest()), n, None)
              case Err(e) => r == Err(e)
              case Ok((solc, rest)) => r == Ok(solc) && Rest() == rest
    {
      var solc: Solc := None;
      for i := 0 to n
        invariant Valid()
        invariant DecodeEntries(step, Rest(), n - i, solc) == DecodeEntries(step, old(Rest()), n, None)
      {
        var next := ReadEntry(text, solc, step);
        if next.Err? {
          return Err(next.error);
        }
        solc := next.value;
      }
      r := Ok(solc);
    }

    /** The head of the map, then its entries. */
    method ReadMetadata(text: Text, ghost step: Step) returns (r: Result<Solc, Error>)
      requires Valid() && Agrees(text, step)
      modifies this
      ensures Valid()
      ensures match ReadMap(old(Rest()))
              case Err(e) => r == Err(e)
              case Ok((count, rest)) => (
                match DecodeEntries(step, rest, Declared(count), None)
                case Err(e) => r == Err(e)
                case Ok((solc, after)) => r == Ok(solc) && position == |buffer| - |after|)
    {
      var count := MapHead();
      if count.Err? {
        r := Err(count.error);
      } else {
        r := ReadEntries(text, Declared(count.value), step);
        assert position == |buffer| - |Rest()|;
      }
    }
  }

  method DecodeWith(text: Text, encoded: Bytes, ghost step: Step) returns (r: Result<Found, Error>)
    requires Agrees(text, step)
    ensures r == DecodeMap(step, encoded)
  {
    var d := new Decoder(encoded);
    var solc := d.ReadMetadata(text, step);
    r := if solc.Err? then Err(solc.error) else Ok(Found(solc.value, d.position));
  }

  /** The version found and the position the decoder ends at. */
  method DecodeMetadata(text: Text, encoded: Bytes) returns (r: Result<Found, Error>)
    ensures r == FromCbor(text, encoded)
  {
    r := DecodeWith(text, encoded, EntryStep(text));
  }

  // ---- well-formed maps ----

  datatype Entry = Entry(keyWidth: Width, key: Bytes, value: Item)

  predicate ValidEntry(text: Text, e: Entry) {
    ValidString(text.utf8, 3, e.keyWidth, e.key) && Valid(text.utf8, e.value)
  }

  predicate ValidEntries(text: Text, entries: seq<Entry>) {
    forall i :: 0 <= i < |entries| ==> ValidEntry(text, entries[i])
  }

  function EncodeEntry(text: Text, e: Entry): (s: Bytes)
    requires ValidEntry(text, e)
  {
    EncodeHead(3, e.keyWidth, |e.key|) + e.key + Encode(text.utf8, e.value)
  }

  function EncodeEntries(text: Text, entries: seq<Entry>): Bytes
    requires ValidEntries(text, entries)
  {
    if entries == [] then [] else EncodeEntry(text, entries[0]) + EncodeEntries(text, entries[1..])
  }

  function EncodeMap(text: Text, w: Width, entries: seq<Entry>): Bytes
    requires ValidEntries(text, entries) && Fits(w, |entries|)
  {
    EncodeHead(5, w, |entries|) + EncodeEntries(text, entries)
  }

  /** The version an item stands for. */
  function VersionOf(text: Text, value: Item): Result<Version, Error> {
    if value.Str? && value.major == 2 then Release(value.data)
    else if value.Str? && value.major == 3 then Prerelease(text, value.data)
    else Err(InvalidSolcType)
  }

  /** What an entry says, after what the earlier ones said. */
  function InterpretEntry(text: Text, e: Entry, solc: Solc): Result<Solc, Error> {
    if e.key != SOLC then Ok(solc)
    else if solc.Some? then Err(DuplicateKeys)
    else match VersionOf(text, e.value) case Err(x) => Err(x) case Ok(v) => Ok(Some(v))
  }

  function Interpret(text: Text, entries: seq<Entry>, solc: Solc): Result<Solc, Error>
    decreases |entries|
  {
    if entries == [] then Ok(solc)
    else match InterpretEntry(text, entries[0], solc)
      case Err(x) => Err(x)
      case Ok(next) => Interpret(text, entries[1..], next)
  }

  // ---- decoding what was encoded ----

  lemma SolcDecoded(text: Text, value: Item, tail: Bytes)
    requires Valid(text.utf8, value)
    ensures SolcValue(text, Encode(text.utf8, value) + tail)
            == match VersionOf(text, value) case Err(e) => Err(e) case Ok(v) => Ok((v, tail))
  {
    var s := Encode(text.utf8, value) + tail;
    assert s[0] == Encode(text.utf8, value)[0];
    if value.Str? {
      StringRead(text.utf8, value.major, value.width, value.data, tail);
    }
  }

  function Then(r: Result<Solc, Error>, tail: Bytes): Result<(Solc, Bytes), Error> {
    match r case Err(x) => Err(x) case Ok(solc) => Ok((solc, tail))
  }

  lemma EntryDecoded(text: Text, e: Entry, solc: Solc, tail: Bytes)
    requires ValidEntry(text, e)
    ensures DecodeEntry(text, EncodeEntry(text, e) + tail, solc) == Then(InterpretEntry(text, e, solc), tail)
  {
    var value := Encode(text.utf8, e.value);
    StringRead(text.utf8, 3, e.keyWidth, e.key, value + tail);
    Regroup(EncodeHead(3, e.keyWidth, |e.key|) + e.key, value, tail);
    SolcDecoded(text, e.value, tail);
    ItemSkipped(text.utf8, e.value, tail);
  }

  /** The turn reads any entry as what it says. */
  ghost predicate Reads(text: Text, step: Step) {
    forall e, solc, tail :: ValidEntry(text, e) ==>
      step(EncodeEntry(text, e) + tail, solc) == Then(InterpretEntry(text, e, solc), tail)
  }

  lemma EntryStepReads(text: Text)
    ensures Reads(text, EntryStep(text))
  {
    forall e, solc, tail | ValidEntry(text, e)
      ensures EntryStep(text)(EncodeEntry(text, e) + tail, solc) == Then(InterpretEntry(text, e, solc), tail)
    {
      EntryDecoded(text, e, solc, tail);
    }
  }

  /** Entries that are present are decoded as what they say; entries declared beyond them are read from the tail. */
  lemma {:induction false} EntriesDecoded(text: Text, step: Step, entries: seq<Entry>, n: nat, solc: Solc, tail: Bytes)
    requires Reads(text, step) && ValidEntries(text, entries) && |entries| <= n
    ensures DecodeEntries(step, EncodeEntries(text, entries) + tail, n, solc)
            == match Interpret(text, entries, solc)
               case Err(x) => Err(x)
               case Ok(next) => DecodeEntries(step, tail, n - |entries|, next)
    decreases |entries|
  {
    if entries == [] {
      assert [] + tail == tail;
    } else {
      var more := EncodeEntries(text, entries[1..]);
      Regroup(EncodeEntry(text, entries[0]), more, tail);
      var next := InterpretEntry(text, entries[0], solc);
      assert step(EncodeEntry(text, entries[0]) + (more + tail), solc) == Then(next, more + tail);
      if next.Ok? {
        EntriesDecoded(text, step, entries[1..], n - 1, next.value, tail);
      }
    }
  }

  lemma MapRead(w: Width, n: nat, rest: Bytes)
    requires Fits(w, n)
    ensures ReadMap(EncodeHead(5, w, n) + rest) == Ok((Some(n), rest))
  {
    HeadRead(5, w, n, rest);
  }

  function Whole(r: Result<Solc, Error>, size: nat): Result<Found, Error> {
    match r case Err(x) => Err(x) case Ok(solc) => Ok(Found(solc, size))
  }

  lemma MapDecoded(text: Text, step: Step, w: Width, entries: seq<Entry>, tail: Bytes)
    requires Reads(text, step) && ValidEntries(text, entries) && Fits(w, |entries|)
    ensures DecodeMap(step, EncodeMap(text, w, entries) + tail)
            == Whole(Interpret(text, entries, None), |EncodeMap(text, w, entries)|)
  {
    var content := EncodeEntries(text, entries);
    Regroup(EncodeHead(5, w, |entries|), content, tail);
    MapRead(w, |entries|, content + tail);
    EntriesDecoded(text, step, entries, |entries|, None, tail);
  }

  /** Decoding a well-formed map, whatever follows it, gives what its entries say and the length of its encoding. */
  lemma Decoded(text: Text, w: Width, entries: seq<Entry>, tail: Bytes)
    requires ValidEntries(text, entries) && Fits(w, |entries|)
    ensures FromCbor(text, EncodeMap(text, w, entries) + tail)
            == Whole(Interpret(text, entries, None), |EncodeMap(text, w, entries)|)
  {
    EntryStepReads(text);
    MapDecoded(text, EntryStep(text), w, entries, tail);
  }

  /** A map that declares more entries than are present is never decoded. */
  lemma TooFewEntries(text: Text, w: Width, n: nat, entries: seq<Entry>)
    requires ValidEntries(text, entries) && Fits(w, n) && |entries| < n
    ensures FromCbor(text, EncodeHead(5, w, n) + EncodeEntries(text, entries)).Err?
  {
    var content := EncodeEntries(text, entries);
    MapRead(w, n, content);
    EntryStepReads(text);
    EntriesDecoded(text, EntryStep(text), entries, n, None, []);
    assert content + [] == content;
  }

  ghost predicate Consumes(step: Step) {
    forall s, solc :: step(s, solc).Ok? ==> |step(s, solc).value.1| + 2 <= |s|
  }

  /** Every turn of the loop consumes two bytes or more. */
  lemma {:induction false} EntriesConsume(step: Step, s: Bytes, n: nat, solc: Solc)
    requires Consumes(step) && DecodeEntries(step, s, n, solc).Ok?
    ensures |DecodeEntries(step, s, n, solc).value.1| + 2 * n <= |s|
    decreases n
  {
    if n > 0 {
      var (next, rest) := step(s, solc).value;
      EntriesConsume(step, rest, n - 1, next);
    }
  }

  lemma EntryStepConsumes(text: Text)
    ensures Consumes(EntryStep(text))
  {
  }

  /** A map of indefinite length is never decoded: the loop expects more entries than any input can hold. */
  lemma IndefiniteNeverDecoded(text: Text, encoded: Bytes)
    requires |encoded| < 0x1_0000_0000_0000_0000 && encoded != [] && encoded[0] == 0xbf
    ensures FromCbor(text, encoded).Err?
  {
    if FromCbor(text, encoded).Ok? {
      EntryStepConsumes(text);
      EntriesConsume(EntryStep(text), encoded[1..], Declared(None), None);
    }
  }

  // ---- what is decoded was a well-formed map ----

  lemma SolcWritten(text: Text, s: Bytes) returns (value: Item)
    requires SolcValue(text, s).Ok?
    ensures Valid(text.utf8, value) && s == Encode(text.utf8, value) + SolcValue(text, s).value.1
    ensures VersionOf(text, value) == Ok(SolcValue(text, s).value.0)
  {
    var major := if s[0] <= 0x5b then 2 else 3;
    var w := StringWritten(text.utf8, major, s);
    value := Str(major, w, ReadString(text.utf8, major, s).value.0);
  }

  lemma EntryWritten(text: Text, s: Bytes, solc: Solc) returns (e: Entry)
    requires DecodeEntry(text, s, solc).Ok?
    ensures ValidEntry(text, e) && s == EncodeEntry(text, e) + DecodeEntry(text, s, solc).value.1
    ensures InterpretEntry(text, e, solc) == Ok(DecodeEntry(text, s, solc).value.0)
  {
    var (key, rest) := ReadString(text.utf8, 3, s).value;
    var w := StringWritten(text.utf8, 3, s);
    var value;
    if key == SOLC {
      value := SolcWritten(text, rest);
    } else {
      value := ItemWritten(text.utf8, rest);
    }
    e := Entry(w, key, value);
    Regroup(EncodeHead(3, w, |key|) + key, Encode(text.utf8, value), DecodeEntry(text, s, solc).value.1);
  }

  ghost predicate IsEntry(text: Text, e: Entry, s: Bytes, solc: Solc, next: Solc, rest: Bytes) {
    ValidEntry(text, e) && s == EncodeEntry(text, e) + rest && InterpretEntry(text, e, solc) == Ok(next)
  }

  /** The turn reads only what is an entry. */
  ghost predicate ReadsOnly(text: Text, step: Step) {
    forall s, solc :: ReadsOnlyAt(text, step, s, solc)
  }

  ghost predicate ReadsOnlyAt(text: Text, step: Step, s: Bytes, solc: Solc) {
    step(s, solc).Ok? ==> exists e :: IsEntry(text, e, s, solc, step(s, solc).value.0, step(s, solc).value.1)
  }

  lemma EntryStepReadsOnly(text: Text)
    ensures ReadsOnly(text, EntryStep(text))
  {
    forall s, solc ensures ReadsOnlyAt(text, EntryStep(text), s, solc) {
      if DecodeEntry(text, s, solc).Ok? {
        var e := EntryWritten(text, s, solc);
        assert IsEntry(text, e, s, solc, DecodeEntry(text, s, solc).value.0, DecodeEntry(text, s, solc).value.1);
      }
    }
  }

  lemma {:induction false} EntriesWritten(text: Text, step: Step, s: Bytes, n: nat, solc: Solc)
    returns (entries: seq<Entry>)
    requires ReadsOnly(text, step) && DecodeEntries(step, s, n, solc).Ok?
    ensures ValidEntries(text, entries) && |entries| == n
    ensures s == EncodeEntries(text, entries) + DecodeEntries(step, s, n, solc).value.1
    ensures Interpret(text, entries, solc) == Ok(DecodeEntries(step, s, n, solc).value.0)
    decreases n
  {
    if n == 0 {
      entries := [];
    } else {
      var (next, rest) := step(s, solc).value;
      assert ReadsOnlyAt(text, step, s, solc);
      var e :| IsEntry(text, e, s, solc, next, rest);
      var more := EntriesWritten(text, step, rest, n - 1, next);
      entries := [e] + more;
      EntryBefore(text, e, more, s, solc, next, rest, DecodeEntries(step, rest, n - 1, next).value.1);
    }
  }

  lemma EntryBefore(text: Text, e: Entry, more: seq<Entry>, s: Bytes, solc: Solc, next: Solc, rest: Bytes, tail: Bytes)
    requires IsEntry(text, e, s, solc, next, rest) && ValidEntries(text, more)
    requires rest == EncodeEntries(text, more) + tail
    ensures ValidEntries(text, [e] + more) && Interpret(text, [e] + more, solc) == Interpret(text, more, next)
    ensures s == EncodeEntries(text, [e] + more) + tail
  {
    assert ([e] + more)[1..] == more;
    Regroup(EncodeEntry(text, e), EncodeEntries(text, more), tail);
  }

  ghost predicate EncodesAs(text: Text, prefix: Bytes, solc: Solc, w: Width, entries: seq<Entry>) {
    && ValidEntries(text, entries) && Fits(w, |entries|)
    && prefix == EncodeMap(text, w, entries) && Interpret(text, entries, None) == Ok(solc)
  }

  lemma Written(text: Text, encoded: Bytes, solc: Solc, used: int)
    requires |encoded| < 0x1_0000_0000_0000_0000 && FromCbor(text, encoded) == Ok(Found(solc, used))
    ensures 0 <= used <= |encoded| && exists w, entries :: EncodesAs(text, encoded[..used], solc, w, entries)
  {
    HeadWritten(encoded);
    var (h, rest) := ReadHead(encoded).value;
    if h.arg.None? {
      EntryStepConsumes(text);
      EntriesConsume(EntryStep(text), rest, Declared(None), None);
    } else {
      var n := h.arg.value;
      EntryStepReadsOnly(text);
      var entries := EntriesWritten(text, EntryStep(text), rest, n, None);
      var tail := DecodeEntries(EntryStep(text), rest, n, None).value.1;
      Regroup(EncodeHead(5, h.width, n), EncodeEntries(text, entries), tail);
      var whole := EncodeMap(text, h.width, entries);
      assert encoded == whole + tail;
      assert encoded[..used] == whole;
      assert EncodesAs(text, encoded[..used], solc, h.width, entries);
    }
  }

  lemma EncodedDecodes(text: Text, prefix: Bytes, solc: Solc, w: Width, entries: seq<Entry>, tail: Bytes)
    requires EncodesAs(text, prefix, solc, w, entries)
    ensures FromCbor(text, prefix + tail) == Ok(Found(solc, |prefix|))
  {
    Decoded(text, w, entries, tail);
  }

  lemma PrefixDecodes(text: Text, encoded: Bytes, used: nat, solc: Solc, w: Width, entries: seq<Entry>)
    requires used <= |encoded| && EncodesAs(text, encoded[..used], solc, w, entries)
    ensures FromCbor(text, encoded) == Ok(Found(solc, used))
  {
    EncodedDecodes(text, encoded[..used], solc, w, entries, encoded[used..]);
    assert encoded == encoded[..used] + encoded[used..];
  }

  /** Decoding succeeds with a version and a size precisely when that many bytes are a well-formed map of known
      length that says so. */
  lemma DecodedIff(text: Text, encoded: Bytes, solc: Solc, used: nat)
    requires |encoded| < 0x1_0000_0000_0000_0000 && used <= |encoded|
    ensures FromCbor(text, encoded) == Ok(Found(solc, used))
            <==> exists w, entries :: EncodesAs(text, encoded[..used], solc, w, entries)
  {
    if w, entries :| EncodesAs(text, encoded[..used], solc, w, entries) {
      PrefixDecodes(text, encoded, used, solc, w, entries);
    } else if FromCbor(text, encoded) == Ok(Found(solc, used)) {
      Written(text, encoded, solc, used);
    }
  }

  // ---- what the entries say ----

  predicate NoSolc(entries: seq<Entry>) {
    forall i :: 0 <= i < |entries| ==> entries[i].key != SOLC
  }

  lemma {:induction false} InterpretAfter(text: Text, entries: seq<Entry>, solc: Version)
    ensures Interpret(text, entries, Some(solc)) == if NoSolc(entries) then Ok(Some(solc)) else Err(DuplicateKeys)
  {
    if entries != [] {
      InterpretAfter(text, entries[1..], solc);
      assert NoSolc(entries) <==> entries[0].key != SOLC && NoSolc(entries[1..]);
    }
  }

  /** Entries without `solc` say nothing, and all entries up to the first `solc` are passed over. */
  lemma {:induction false} InterpretBefore(text: Text, before: seq<Entry>, entries: seq<Entry>)
    requires NoSolc(before)
    ensures Interpret(text, before + entries, None) == Interpret(text, entries, None)
  {
    if before == [] {
      assert before + entries == entries;
    } else {
      assert (before + entries)[0] == before[0] && (before + entries)[1..] == before[1..] + entries;
      assert before[0].key != SOLC;
      InterpretBefore(text, before[1..], entries);
    }
  }

  /** The single `solc` entry decides; a second one is refused, whatever its value and the entries around it. */
  lemma OnlySolcCounts(text: Text, before: seq<Entry>, e: Entry, after: seq<Entry>)
    requires NoSolc(before) && e.key == SOLC
    ensures Interpret(text, before, None) == Ok(None)
    ensures Interpret(text, before + ([e] + after), None)
            == match VersionOf(text, e.value)
               case Err(x) => Err(x)
               case Ok(v) => if NoSolc(after) then Ok(Some(v)) else Err(DuplicateKeys)
  {
    InterpretBefore(text, before, []);
    assert before + [] == before;
    InterpretBefore(text, before, [e] + after);
    assert ([e] + after)[1..] == after;
    match VersionOf(text, e.value) {
      case Err(_) =>
      case Ok(v) => InterpretAfter(text, after, v);
    }
  }

  /** A map with one entry for the key of the bytes 73 6f 6c 63, whatever stands around that entry and after the map: a
      byte string of three bytes is major, minor and patch version in this order, a text is parsed as a version, any
      other item is of the wrong type; and the whole map is used. */
  lemma SolcEntryDecoded(text: Text, w: Width, before: seq<Entry>, e: Entry, after: seq<Entry>, tail: Bytes)
    requires ValidEntries(text, before + ([e] + after)) && Fits(w, |before + ([e] + after)|)
    requires e.key == [0x73, 0x6f, 0x6c, 0x63]
    requires forall i :: 0 <= i < |before| ==> before[i].key != [0x73, 0x6f, 0x6c, 0x63]
    requires forall i :: 0 <= i < |after| ==> after[i].key != [0x73, 0x6f, 0x6c, 0x63]
    ensures var encoded := EncodeMap(text, w, before + ([e] + after));
            FromCbor(text, encoded + tail)
            == match e.value
               case Str(2, _, data) =>
                 (if |data| == 3 then Ok(Found(Some(Version(data[0], data[1], data[2], [])), |encoded|))
                  else Err(InvalidSolcVersion))
               case Str(3, _, data) =>
                 (if text.semver(data).Some? then Ok(Found(text.semver(data), |encoded|)) else Err(InvalidSolcVersion))
               case _ => Err(InvalidSolcType)
  {
    Decoded(text, w, before + ([e] + after), tail);
    OnlySolcCounts(text, before, e, after);
  }

  function ShortEntry(major: Major, data: Bytes): Entry {
    Entry(Immediate, [0x73, 0x6f, 0x6c, 0x63], Str(major, Immediate, data))
  }

  /** A map whose single entry is `solc` with a short string, byte for byte. */
  lemma ShortMap(text: Text, major: Major, data: Bytes, e: Entry)
    requires e == ShortEntry(major, data) && ValidEntry(text, e)
    ensures [] + ([e] + []) == [e] && ValidEntries(text, [e])
    ensures EncodeMap(text, Immediate, [e]) == [0xa1, 0x64, 0x73, 0x6f, 0x6c, 0x63, 32 * major + |data|] + data
  {
    var entry := EncodeEntry(text, e);
    assert EncodeHead(3, Immediate, 4) == [0x64];
    assert entry == [0x64] + e.key + ([32 * major + |data|] + data);
    assert [e][1..] == [];
    assert EncodeEntries(text, [e]) == entry + [] == entry;
    assert EncodeHead(5, Immediate, 1) == [0xa1];
  }

  lemma ShortDecoded(text: Text, major: Major, data: Bytes, tail: Bytes, e: Entry, encoded: Bytes)
    requires e == ShortEntry(major, data) && ValidEntries(text, [e]) && encoded == EncodeMap(text, Immediate, [e])
    ensures FromCbor(text, encoded + tail)
            == match e.value
               case Str(2, _, data) =>
                 (if |data| == 3 then Ok(Found(Some(Version(data[0], data[1], data[2], [])), |encoded|))
                  else Err(InvalidSolcVersion))
               case Str(3, _, data) =>
                 (if text.semver(data).Some? then Ok(Found(text.semver(data), |encoded|)) else Err(InvalidSolcVersion))
               case _ => Err(InvalidSolcType)
  {
    assert [] + ([e] + []) == [e];
    SolcEntryDecoded(text, Immediate, [], e, [], tail);
  }

  /** The smallest such maps, byte for byte: a release, and a version text of up to 23 bytes. */
  lemma ReleaseBytes(text: Text, a: byte, b: byte, c: byte, tail: Bytes)
    requires text.utf8([0x73, 0x6f, 0x6c, 0x63])
    ensures FromCbor(text, [0xa1, 0x64, 0x73, 0x6f, 0x6c, 0x63, 0x43] + [a, b, c] + tail)
            == Ok(Found(Some(Version(a, b, c, [])), 10))
  {
    var e := ShortEntry(2, [a, b, c]);
    assert Valid(text.utf8, e.value) && ValidEntry(text, e);
    ShortMap(text, 2, [a, b, c], e);
    ShortDecoded(text, 2, [a, b, c], tail, e, EncodeMap(text, Immediate, [e]));
  }

  lemma PrereleaseBytes(text: Text, version: Bytes, tail: Bytes)
    requires text.utf8([0x73, 0x6f, 0x6c, 0x63]) && text.utf8(version) && |version| < 24
    requires text.semver(version).Some?
    ensures FromCbor(text, [0xa1, 0x64, 0x73, 0x6f, 0x6c, 0x63, 0x60 + |version|] + version + tail)
            == Ok(Found(text.semver(version), 7 + |version|))
  {
    var e := ShortEntry(3, version);
    assert Valid(text.utf8, e.value) && ValidEntry(text, e);
    ShortMap(text, 3, version, e);
    ShortDecoded(text, 3, version, tail, e, EncodeMap(text, Immediate, [e]));
  }

  lemma {:induction false} RepeatedSolc(text: Text, entries: seq<Entry>, i: nat, j: nat, solc: Solc)
    requires i < j < |entries| && entries[i].key == entries[j].key == SOLC
    ensures Interpret(text, entries, solc).Err?
    decreases |entries|
  {
    var next := InterpretEntry(text, entries[0], solc);
    if next.Ok? {
      if i > 0 {
        RepeatedSolc(text, entries[1..], i - 1, j - 1, next.value);
      } else {
        InterpretAfter(text, entries[1..], next.value.value);
        assert entries[1..][j - 1] == entries[j];
      }
    }
  }

  /** A map with two `solc` keys is never decoded. */
  lemma RepeatedSolcRejected(text: Text, w: Width, entries: seq<Entry>, i: nat, j: nat, tail: Bytes)
    requires ValidEntries(text, entries) && Fits(w, |entries|)
    requires i < j < |entries| && entries[i].key == entries[j].key == SOLC
    ensures FromCbor(text, EncodeMap(text, w, entries) + tail).Err?
  {
    Decoded(text, w, entries, tail);
    RepeatedSolc(text, entries, i, j, None);
  }

  /** Every `solc` entry holds a version. */
  predicate VersionsOk(text: Text, entries: seq<Entry>) {
    forall i :: 0 <= i < |entries| && entries[i].key == SOLC ==> VersionOf(text, entries[i].value).Ok?
  }

  predicate SolcOnce(entries: seq<Entry>) {
    forall i, j :: 0 <= i < j < |entries| && entries[i].key == SOLC ==> entries[j].key != SOLC
  }

  lemma RestOfEntries(text: Text, entries: seq<Entry>)
    requires entries != []
    ensures VersionsOk(text, entries)
            <==> VersionsOk(text, entries[1..])
                 && (entries[0].key == SOLC ==> VersionOf(text, entries[0].value).Ok?)
    ensures SolcOnce(entries) <==> SolcOnce(entries[1..]) && (entries[0].key == SOLC ==> NoSolc(entries[1..]))
  {
    var first, rest := entries[0], entries[1..];
    assert entries == [first] + rest;
    if VersionsOk(text, entries) {
      forall i | 0 <= i < |rest| && rest[i].key == SOLC ensures VersionOf(text, rest[i].value).Ok? {
        assert entries[i + 1] == rest[i];
      }
    }
    if SolcOnce(entries) {
      forall i, j | 0 <= i < j < |rest| && rest[i].key == SOLC ensures rest[j].key != SOLC {
        assert entries[i + 1] == rest[i] && entries[j + 1] == rest[j];
      }
      forall j | 0 <= j < |rest| && first.key == SOLC ensures rest[j].key != SOLC {
        assert entries[j + 1] == rest[j];
      }
    }
  }

  lemma {:induction false} InterpretOkIff(text: Text, entries: seq<Entry>)
    ensures Interpret(text, entries, None).Ok? <==> VersionsOk(text, entries) && SolcOnce(entries)
  {
    if entries != [] {
      RestOfEntries(text, entries);
      InterpretOkIff(text, entries[1..]);
      var v := VersionOf(text, entries[0].value);
      if entries[0].key == SOLC && v.Ok? {
        InterpretAfter(text, entries[1..], v.value);
      }
    }
  }

  /** A well-formed map is decoded precisely when every `solc` entry holds a version and there is at most one; other
      keys, and their repetition, do not matter. */
  lemma MapDecodesIff(text: Text, w: Width, entries: seq<Entry>, tail: Bytes)
    requires ValidEntries(text, entries) && Fits(w, |entries|)
    ensures FromCbor(text, EncodeMap(text, w, entries) + tail).Ok? <==> VersionsOk(text, entries) && SolcOnce(entries)
  {
    Decoded(text, w, entries, tail);
    InterpretOkIff(text, entries);
  }

  /** Entries without `solc` decode, whatever their keys and however often these are repeated. */
  lemma OtherKeysDecode(text: Text, w: Width, entries: seq<Entry>, tail: Bytes)
    requires ValidEntries(text, entries) && Fits(w, |entries|) && NoSolc(entries)
    ensures FromCbor(text, EncodeMap(text, w, entries) + tail)
            == Ok(Found(None, |EncodeMap(text, w, entries)|))
  {
    InterpretBefore(text, entries, []);
    assert entries + [] == entries;
    Decoded(text, w, entries, tail);
  }

  /** An entry with the key `x`. */
  lemma EntryOfX(text: Text) returns (e: Entry)
    requires text.utf8([0x78])
    ensures ValidEntry(text, e) && e.key == [0x78]
  {
    e := Entry(Immediate, [0x78], Atom(0, Immediate, 0));
  }

  /** A repeated key other than `solc` is passed over: a map with `x` twice is decoded. */
  lemma RepeatedOtherKeyDecodes(text: Text) returns (e: Entry)
    requires text.utf8([0x78])
    ensures e.key == [0x78] && ValidEntries(text, [e, e])
    ensures FromCbor(text, EncodeMap(text, Immediate, [e, e]))
            == Ok(Found(None, |EncodeMap(text, Immediate, [e, e])|))
  {
    e := EntryOfX(text);
    OtherKeysDecode(text, Immediate, [e, e], []);
    assert EncodeMap(text, Immediate, [e, e]) + [] == EncodeMap(text, Immediate, [e, e]);
  }
}
