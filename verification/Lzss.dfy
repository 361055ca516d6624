/** The LZSS codec for text literals embedded in the binary.

    The wire format is defined once, as a list of tokens with a byte encoding (`Wire`) and
    a meaning (`Expand`).  The decoder is proved to accept exactly the encodings of
    meaningful token lists, the encoder to emit the encoding of a token list that means
    its input, and the length predictor to agree with the encoder. */
module Lzss {
  import opened Basics

  type Byte = x: int | 0 <= x < 256

  const HASH_SLOTS: nat := 4096
  const MAX_DISTANCE: nat := 65535
  const MIN_MATCH: nat := 4
  const MAX_MATCH: nat := MIN_MATCH + 127
  const LITERAL_CHUNK: nat := 128
  /** `usize::MAX`, the marker of an empty hash slot. */
  const NO_POSITION: nat := 0xFFFF_FFFF_FFFF_FFFF

  // ---- Tokens: byte encoding and meaning ----

  datatype Token = Literal(bytes: seq<Byte>) | Copy(length: nat, distance: nat)

  predicate Encodable(t: Token) {
    match t
    case Literal(bytes) => 1 <= |bytes| <= LITERAL_CHUNK
    case Copy(length, distance) => MIN_MATCH <= length <= MAX_MATCH && distance <= MAX_DISTANCE
  }

  type WireToken = t: Token | Encodable(t) witness Literal([0])

  /** The bytes of one token: a header whose top bit tells a copy from a literal run. */
  function WireOf(t: WireToken): seq<Byte> {
    match t
    case Literal(bytes) => [|bytes| - 1] + bytes
    case Copy(length, distance) => [0x80 + (length - MIN_MATCH), distance % 256, distance / 256]
  }

  function Wire(ts: seq<WireToken>): seq<Byte> {
    if ts == [] then [] else WireOf(ts[0]) + Wire(ts[1..])
  }

  /** `out` followed by `length` bytes, each read `distance` back from the growing end;
      the source and the destination overlap when `distance < length`. */
  function CopyBack(out: seq<Byte>, length: nat, distance: nat): (r: seq<Byte>)
    requires 0 < distance <= |out|
    ensures |r| == |out| + length
    ensures out <= r
  {
    if length == 0 then out
    else
      var prefix := CopyBack(out, length - 1, distance);
      prefix + [prefix[|prefix| - distance]]
  }

  /** What one token does to the text decoded so far. */
  function Extend(out: seq<Byte>, t: WireToken): Option<seq<Byte>> {
    match t
    case Literal(bytes) => Some(out + bytes)
    case Copy(length, distance) =>
      if 0 < distance <= |out| then Some(CopyBack(out, length, distance)) else None
  }

  /** The text a token list stands for, or None when a copy reaches before the start. */
  function Expand(out: seq<Byte>, ts: seq<WireToken>): Option<seq<Byte>>
    decreases |ts|
  {
    if ts == [] then Some(out)
    else
      match Extend(out, ts[0])
      case None => None
      case Some(next) => Expand(next, ts[1..])
  }

  /** `wire` is a well-formed stream and `text` is what it stands for. */
  ghost predicate Decodes(wire: seq<Byte>, text: seq<Byte>) {
    exists ts: seq<WireToken> :: Wire(ts) == wire && Expand([], ts) == Some(text)
  }

  lemma {:induction false} WireConcat(a: seq<WireToken>, b: seq<WireToken>)
    ensures Wire(a + b) == Wire(a) + Wire(b)
  {
    if a == [] {
      assert a + b == b;
    } else {
      assert (a + b)[1..] == a[1..] + b;
      WireConcat(a[1..], b);
    }
  }

  lemma {:induction false} ExpandConcat(out: seq<Byte>, a: seq<WireToken>, b: seq<WireToken>)
    ensures Expand(out, a + b) ==
            (match Expand(out, a) case None => None case Some(mid) => Expand(mid, b))
    decreases |a|
  {
    if a == [] {
      assert a + b == b;
    } else {
      assert (a + b)[1..] == a[1..] + b;
      match Extend(out, a[0])
      case None =>
      case Some(next) => ExpandConcat(next, a[1..], b);
    }
  }

  lemma WireSnoc(done: seq<WireToken>, t: WireToken)
    ensures Wire(done + [t]) == Wire(done) + WireOf(t)
  {
    WireConcat(done, [t]);
    assert Wire([t]) == WireOf(t) + Wire([]);
  }

  lemma ExpandSnoc(out: seq<Byte>, done: seq<WireToken>, t: WireToken)
    ensures Expand(out, done + [t]) == match Expand(out, done) case None => None case Some(mid) => Extend(mid, t)
  {
    ExpandConcat(out, done, [t]);
    match Expand(out, done)
    case None =>
    case Some(mid) => assert Expand(mid, [t]) == Extend(mid, t);
  }

  lemma Regroup(a: seq<Byte>, b: seq<Byte>, c: seq<Byte>)
    ensures (a + b) + c == a + (b + c)
  {
  }

  lemma {:induction false} ExpandGrows(out: seq<Byte>, ts: seq<WireToken>)
    requires Expand(out, ts).Some?
    ensures out <= Expand(out, ts).value
    decreases |ts|
  {
    if ts != [] {
      ExpandGrows(Extend(out, ts[0]).value, ts[1..]);
    }
  }

  /** The first token of a stream is determined by the stream's bytes. */
  lemma HeadDetermined(a: WireToken, x: seq<Byte>, b: WireToken, y: seq<Byte>)
    requires WireOf(a) + x == WireOf(b) + y
    ensures a == b && x == y
  {
    var s := WireOf(a) + x;
    assert s[0] == WireOf(a)[0] == WireOf(b)[0];
    assert |WireOf(a)| == |WireOf(b)|;
    assert WireOf(a) == s[..|WireOf(a)|] == WireOf(b);
    assert x == s[|WireOf(a)|..] == y;
    if a.Literal? {
      assert a.bytes == WireOf(a)[1..] == b.bytes;
    } else {
      assert WireOf(a)[1] == WireOf(b)[1] && WireOf(a)[2] == WireOf(b)[2];
    }
  }

  lemma EmptyWire(ts: seq<WireToken>)
    ensures Wire(ts) == [] <==> ts == []
  {
    if ts != [] {
      assert |WireOf(ts[0])| > 0;
    }
  }

  /** No encoding is a proper prefix of another one that parses differently. */
  lemma {:induction false} PrefixCode(done: seq<WireToken>, rest: seq<Byte>, ts: seq<WireToken>)
    requires Wire(done) + rest == Wire(ts)
    ensures |done| <= |ts| && ts[..|done|] == done && Wire(ts[|done|..]) == rest
  {
    if done == [] {
      assert ts[0..] == ts;
    } else {
      Regroup(WireOf(done[0]), Wire(done[1..]), rest);
      EmptyWire(ts);
      HeadDetermined(done[0], Wire(done[1..]) + rest, ts[0], Wire(ts[1..]));
      PrefixCode(done[1..], rest, ts[1..]);
      assert ts[|done|..] == ts[1..][|done| - 1..];
    }
  }

  /** A stream stands for at most one text. */
  lemma DecodesUnique(wire: seq<Byte>, a: seq<Byte>, b: seq<Byte>)
    requires Decodes(wire, a) && Decodes(wire, b)
    ensures a == b
  {
    var s: seq<WireToken> :| Wire(s) == wire && Expand([], s) == Some(a);
    var t: seq<WireToken> :| Wire(t) == wire && Expand([], t) == Some(b);
    assert Wire(s) + [] == Wire(t);
    PrefixCode(s, [], t);
    EmptyWire(t[|s|..]);
    assert t == s;
  }

  // ---- Decoder ----

  function FromLeBytes(low: Byte, high: Byte): nat {
    low as int + 256 * (high as int)
  }

  datatype DecodeError =
    | TruncatedLiteral
    | OutputExceedsDeclared
    | TruncatedDistance
    | InvalidDistance
    | LengthMismatch

  /** The decoder has read the tokens `done`, which stand for `out`, and stands at `at`. */
  ghost predicate HasRead(done: seq<WireToken>, out: seq<Byte>, input: seq<Byte>, at: nat) {
    at <= |input| && input[..at] == Wire(done) && Expand([], done) == Some(out)
  }

  /** If the whole input stands for `text` at all, the unread bytes force the next token. */
  lemma NextToken(done: seq<WireToken>, out: seq<Byte>, input: seq<Byte>, at: nat, text: seq<Byte>)
    returns (t: WireToken)
    requires HasRead(done, out, input, at) && at < |input|
    requires Decodes(input, text)
    ensures WireOf(t) <= input[at..]
    ensures Extend(out, t).Some? && Extend(out, t).value <= text
  {
    var ts: seq<WireToken> :| Wire(ts) == input && Expand([], ts) == Some(text);
    assert input == input[..at] + input[at..];
    PrefixCode(done, input[at..], ts);
    var more := ts[|done|..];
    assert ts == done + more;
    ExpandConcat([], done, more);
    t := more[0];
    ExpandGrows(Extend(out, t).value, more[1..]);
  }

  /** The header and the next bytes determine the token at `at`. */
  lemma TokenAt(t: WireToken, input: seq<Byte>, at: nat)
    requires at < |input| && WireOf(t) <= input[at..]
    ensures at + |WireOf(t)| <= |input|
    ensures input[at] < 0x80 ==>
              at + 2 + input[at] <= |input| && t == Literal(input[at + 1..at + 2 + input[at]])
    ensures input[at] >= 0x80 ==>
              at + 3 <= |input| && t == Copy(input[at] - 0x80 + MIN_MATCH, FromLeBytes(input[at + 1], input[at + 2]))
  {
    var w := WireOf(t);
    assert forall k | 0 <= k < |w| :: w[k] == input[at + k];
    if t.Literal? {
      assert w[0] == |t.bytes| - 1;
      assert t.bytes == w[1..] == input[at + 1..at + |w|];
    } else {
      assert w[0] >= 0x80 && w[1] == t.distance % 256 && w[2] == t.distance / 256;
    }
  }

  /** At a literal header: a run that does not fit the input is malformed, and one that
      does not fit the declared length makes every possible text too long. */
  lemma RefuseLiteral(done: seq<WireToken>, out: seq<Byte>, input: seq<Byte>, at: nat, limit: nat)
    requires HasRead(done, out, input, at) && at < |input| && input[at] < 0x80
    ensures at + 2 + input[at] > |input| ==> forall text :: !Decodes(input, text)
    ensures |out| + input[at] + 1 > limit ==> forall text | Decodes(input, text) :: |text| > limit
  {
    forall text | Decodes(input, text)
      ensures at + 2 + input[at] <= |input| && |text| >= |out| + input[at] + 1
    {
      var t := NextToken(done, out, input, at, text);
      TokenAt(t, input, at);
    }
  }

  /** The same at a copy header, where the distance must also lie within the output. */
  lemma RefuseCopy(done: seq<WireToken>, out: seq<Byte>, input: seq<Byte>, at: nat, limit: nat)
    requires HasRead(done, out, input, at) && at < |input| && input[at] >= 0x80
    ensures at + 3 > |input| ==> forall text :: !Decodes(input, text)
    ensures at + 3 <= |input| && !(0 < FromLeBytes(input[at + 1], input[at + 2]) <= |out|) ==>
              forall text :: !Decodes(input, text)
    ensures |out| + (input[at] - 0x80 + MIN_MATCH) > limit ==>
              forall text | Decodes(input, text) :: |text| > limit
  {
    forall text | Decodes(input, text)
      ensures at + 3 <= |input| && 0 < FromLeBytes(input[at + 1], input[at + 2]) <= |out|
      ensures |text| >= |out| + (input[at] - 0x80 + MIN_MATCH)
    {
      var t := NextToken(done, out, input, at, text);
      TokenAt(t, input, at);
    }
  }

  /** Consuming one more token keeps the decoder's bookkeeping. */
  lemma Advance(done: seq<WireToken>, out: seq<Byte>, input: seq<Byte>, at: nat, t: WireToken)
    requires HasRead(done, out, input, at)
    requires WireOf(t) <= input[at..] && Extend(out, t).Some?
    ensures HasRead(done + [t], Extend(out, t).value, input, at + |WireOf(t)|)
  {
    WireSnoc(done, t);
    ExpandSnoc([], done, t);
    assert input[..at + |WireOf(t)|] == input[..at] + WireOf(t);
  }

  lemma ReadLiteral(done: seq<WireToken>, out: seq<Byte>, input: seq<Byte>, at: nat, end: nat)
    requires HasRead(done, out, input, at)
    requires at < |input| && input[at] < 0x80 && end == at + 2 + input[at] <= |input|
    ensures HasRead(done + [Literal(input[at + 1..end])], out + input[at + 1..end], input, end)
  {
    Advance(done, out, input, at, Literal(input[at + 1..end]));
  }

  lemma CopyAt(input: seq<Byte>, at: nat, length: nat, distance: nat)
    requires at + 3 <= |input| && input[at] >= 0x80
    requires length == input[at] - 0x80 + MIN_MATCH && distance == FromLeBytes(input[at + 1], input[at + 2])
    ensures WireOf(Copy(length, distance)) <= input[at..] && |WireOf(Copy(length, distance))| == 3
  {
    assert WireOf(Copy(length, distance)) == input[at..at + 3];
  }

  lemma ReadCopy(done: seq<WireToken>, out: seq<Byte>, input: seq<Byte>, at: nat, length: nat, distance: nat)
    requires HasRead(done, out, input, at)
    requires at + 3 <= |input| && input[at] >= 0x80
    requires length == input[at] - 0x80 + MIN_MATCH
    requires distance == FromLeBytes(input[at + 1], input[at + 2]) && 0 < distance <= |out|
    ensures HasRead(done + [Copy(length, distance)], CopyBack(out, length, distance), input, at + 3)
  {
    CopyAt(input, at, length, distance);
    hide HasRead, WireOf, FromLeBytes;
    Advance(done, out, input, at, Copy(length, distance));
  }

  /** Having read everything, the decoder holds the one text the input stands for. */
  lemma ReadAll(done: seq<WireToken>, out: seq<Byte>, input: seq<Byte>)
    requires HasRead(done, out, input, |input|)
    ensures Decodes(input, out)
    ensures forall text | Decodes(input, text) :: text == out
  {
    assert input[..|input|] == input;
    forall text | Decodes(input, text) ensures text == out {
      DecodesUnique(input, text, out);
    }
  }

  /** Pushes `length` bytes one at a time, so later ones may read earlier ones. */
  method PushCopies(before: seq<Byte>, length: nat, distance: nat) returns (output: seq<Byte>)
    requires 0 < distance <= |before|
    ensures output == CopyBack(before, length, distance)
  {
    output := before;
    for i := 0 to length
      invariant output == CopyBack(before, i, distance)
    {
      output := output + [output[|output| - distance]];
    }
  }

  method Decompress(input: seq<Byte>, expectedLen: nat) returns (r: Result<seq<Byte>, DecodeError>)
    ensures forall text | Decodes(input, text) ::
              r == if |text| == expectedLen then Ok(text)
                   else if |text| < expectedLen then Err(LengthMismatch)
                   else Err(OutputExceedsDeclared)
    ensures r.Ok? ==> Decodes(input, r.value)
    ensures r.Err? && r.error == LengthMismatch ==> exists text :: Decodes(input, text) && |text| < expectedLen
  {
    hide Decodes, CopyBack;
    var output: seq<Byte> := [];
    var position := 0;
    ghost var done: seq<WireToken> := [];
    while position < |input|
      invariant HasRead(done, output, input, position)
      invariant |output| <= expectedLen
    {
      ghost var at := position;
      var header := input[position];
      position := position + 1;
      if header < 0x80 {
        RefuseLiteral(done, output, input, at, expectedLen);
        var length := header + 1;
        if position + length > |input| {
          return Err(TruncatedLiteral);
        }
        if |output| + length > expectedLen {
          return Err(OutputExceedsDeclared);
        }
        ReadLiteral(done, output, input, at, position + length);
        ghost var token: WireToken := Literal(input[position..position + length]);
        done := done + [token];
        output := output + input[position..position + length];
        position := position + length;
      } else {
        RefuseCopy(done, output, input, at, expectedLen);
        if position + 2 > |input| {
          return Err(TruncatedDistance);
        }
        var distance := FromLeBytes(input[position], input[position + 1]);
        position := position + 2;
        if distance == 0 || distance > |output| {
          return Err(InvalidDistance);
        }
        var length := header - 0x80 + MIN_MATCH;
        if |output| + length > expectedLen {
          return Err(OutputExceedsDeclared);
        }
        ReadCopy(done, output, input, at, length, distance);
        ghost var token: WireToken := Copy(length, distance);
        done := done + [token];
        output := PushCopies(output, length, distance);
      }
    }
    ReadAll(done, output, input);
    if |output| != expectedLen {
      return Err(LengthMismatch);
    }
    r := Ok(output);
  }

  // ---- Tokeniser: what the encoder and the length predictor both follow ----

  /** Any hash of three bytes into the slot table; the codec is correct for each of them. */
  type SlotHash = (Byte, Byte, Byte) -> Slot

  type Slot = x: int | 0 <= x < HASH_SLOTS

  type Table = t: seq<nat> | |t| == HASH_SLOTS witness seq(HASH_SLOTS, i => NO_POSITION)

  /** The multiplicative hash of the source, on a 64-bit word. */
  function LzssHash(a: Byte, b: Byte, c: Byte): Slot {
    var sequence := a as int + 0x100 * (b as int) + 0x1_0000 * (c as int);
    ((sequence * 2_654_435_761) % 0x1_0000_0000_0000_0000 / 0x1_0000) % HASH_SLOTS
  }

  function HashAt(hash: SlotHash, input: seq<Byte>, position: nat): Slot
    requires position + MIN_MATCH <= |input|
  {
    hash(input[position], input[position + 1], input[position + 2])
  }

  /** How far the two positions agree, given that they agree on the first `known` bytes. */
  function CommonLength(input: seq<Byte>, candidate: nat, position: nat, known: nat, limit: nat): (n: nat)
    requires candidate < position && position + limit <= |input| && known <= limit
    ensures known <= n <= limit
    ensures input[candidate + known..candidate + n] == input[position + known..position + n]
    ensures n < limit ==> input[candidate + n] != input[position + n]
    decreases limit - known
  {
    if known < limit && input[candidate + known] == input[position + known] then
      var n := CommonLength(input, candidate, position, known + 1, limit);
      OneMore(input, candidate + known, candidate + n, position + known, position + n);
      n
    else known
  }

  /** Two stretches that agree after their first element and in it agree. */
  lemma OneMore<T>(s: seq<T>, a: nat, aEnd: nat, b: nat, bEnd: nat)
    requires a < aEnd <= |s| && b < bEnd <= |s|
    requires s[a] == s[b] && s[a + 1..aEnd] == s[b + 1..bEnd]
    ensures s[a..aEnd] == s[b..bEnd]
  {
    assert s[a..aEnd] == [s[a]] + s[a + 1..aEnd];
    assert s[b..bEnd] == [s[b]] + s[b + 1..bEnd];
  }

  function Visit(hash: SlotHash, input: seq<Byte>, table: Table, position: nat): Table {
    if position + MIN_MATCH > |input| then table else table[HashAt(hash, input, position) := position]
  }

  /** A match worth encoding: long enough, near enough, and it repeats earlier bytes. */
  predicate GoodMatch(input: seq<Byte>, position: nat, length: nat, distance: nat) {
    && MIN_MATCH <= length <= MAX_MATCH
    && 0 < distance <= MAX_DISTANCE
    && distance <= position && position + length <= |input|
    && input[position - distance..position - distance + length] == input[position..position + length]
  }

  function MatchAt(hash: SlotHash, input: seq<Byte>, table: Table, position: nat): (m: (nat, nat))
    ensures m.0 == 0 || GoodMatch(input, position, m.0, m.1)
  {
    if position + MIN_MATCH > |input| then (0, 0)
    else
      var candidate := table[HashAt(hash, input, position)];
      if candidate == NO_POSITION || candidate >= position || position - candidate > MAX_DISTANCE then (0, 0)
      else
        var available := |input| - position;
        var length := CommonLength(input, candidate, position, 0, if available < MAX_MATCH then available else MAX_MATCH);
        if length < MIN_MATCH then (0, 0) else (length, position - candidate)
  }

  function Record(hash: SlotHash, input: seq<Byte>, table: Table, cursor: nat, end: nat): Table
    requires cursor <= end
    decreases end - cursor
  {
    if cursor == end then table else Record(hash, input, Visit(hash, input, table, cursor), cursor + 1, end)
  }

  /** Literal bytes as runs of at most `LITERAL_CHUNK`. */
  function Runs(bytes: seq<Byte>): seq<WireToken> {
    if |bytes| == 0 then []
    else if |bytes| <= LITERAL_CHUNK then [Literal(bytes)]
    else [Literal(bytes[..LITERAL_CHUNK])] + Runs(bytes[LITERAL_CHUNK..])
  }

  /** Where a scan stands: bytes from `literalStart` on are not yet encoded. */
  datatype Scan = Scan(table: Table, position: nat, literalStart: nat) {
    predicate Within(input: seq<Byte>) {
      literalStart <= position <= |input|
    }
  }

  /** One iteration of the scan, and the tokens that iteration emits. */
  function Next(hash: SlotHash, input: seq<Byte>, s: Scan): (n: Scan)
    requires s.Within(input) && s.position < |input|
    ensures n.Within(input) && s.position < n.position
  {
    var length := MatchAt(hash, input, s.table, s.position).0;
    var visited := Visit(hash, input, s.table, s.position);
    if length == 0 then Scan(visited, s.position + 1, s.literalStart)
    else
      var end := s.position + length;
      Scan(Record(hash, input, visited, s.position + 1, end), end, end)
  }

  function Emitted(hash: SlotHash, input: seq<Byte>, s: Scan): seq<WireToken>
    requires s.Within(input) && s.position < |input|
  {
    var m := MatchAt(hash, input, s.table, s.position);
    if m.0 == 0 then []
    else
      var copy: WireToken := Copy(m.0, m.1);
      Runs(input[s.literalStart..s.position]) + [copy]
  }

  /** The tokens for everything the scan has not encoded yet. */
  function Tokens(hash: SlotHash, input: seq<Byte>, s: Scan): seq<WireToken>
    requires s.Within(input)
    decreases |input| - s.position
  {
    if s.position == |input| then Runs(input[s.literalStart..])
    else Emitted(hash, input, s) + Tokens(hash, input, Next(hash, input, s))
  }

  function Start(): Scan {
    Scan(EmptyTable(), 0, 0)
  }

  function EmptyTable(): Table {
    seq(HASH_SLOTS, i => NO_POSITION)
  }

  function Compressed(hash: SlotHash, input: seq<Byte>): seq<Byte> {
    Wire(Tokens(hash, input, Start()))
  }

  // ---- When a match is used ----

  /** A match is reported exactly when four bytes are left, the slot of the next three holds an
      earlier position at most 65535 back, and the four bytes there are the same.  It is the
      longest one from there: 131 bytes, or all that is left, or up to the first difference. */
  lemma MatchIff(hash: SlotHash, input: seq<Byte>, table: Table, p: nat)
    ensures var (length, distance) := MatchAt(hash, input, table, p);
            if p + 4 > |input| then length == 0
            else
              var q := table[hash(input[p], input[p + 1], input[p + 2])];
              && (length == 0 <==> q == NO_POSITION || q >= p || p - q > 65535
                                   || input[q..q + 4] != input[p..p + 4])
              && (length != 0 ==>
                    && distance == p - q && 4 <= length <= 131 && p + length <= |input|
                    && input[q..q + length] == input[p..p + length]
                    && (length == 131 || p + length == |input| || input[q + length] != input[p + length]))
  {
    hide CommonLength;
    if p + 4 <= |input| {
      var q := table[hash(input[p], input[p + 1], input[p + 2])];
      if !(q == NO_POSITION || q >= p || p - q > 65535) {
        Longest(input, q, p);
      }
    }
  }

  lemma Longest(input: seq<Byte>, q: nat, p: nat)
    requires q < p && p + 4 <= |input|
    ensures var available := |input| - p;
            var length := CommonLength(input, q, p, 0, if available < MAX_MATCH then available else MAX_MATCH);
            && length <= 131 && p + length <= |input|
            && input[q..q + length] == input[p..p + length]
            && (length >= 4 <==> input[q..q + 4] == input[p..p + 4])
            && (length == 131 || p + length == |input| || input[q + length] != input[p + length])
  {
    hide CommonLength;
    var available := |input| - p;
    var limit := if available < MAX_MATCH then available else MAX_MATCH;
    var length := CommonLength(input, q, p, 0, limit);
    FromStart(input, q, p, length);
    AgreeOnFour(input, q, p, length, limit);
  }

  lemma FromStart<T>(s: seq<T>, q: nat, p: nat, length: nat)
    requires q + length <= |s| && p + length <= |s| && s[q + 0..q + length] == s[p + 0..p + length]
    ensures s[q..q + length] == s[p..p + length]
  {
  }

  lemma AgreeOnFour(input: seq<Byte>, q: nat, p: nat, length: nat, limit: nat)
    requires q < p && 4 <= limit && p + limit <= |input| && length <= limit
    requires input[q..q + length] == input[p..p + length]
    requires length < limit ==> input[q + length] != input[p + length]
    ensures length >= 4 <==> input[q..q + 4] == input[p..p + 4]
  {
    if length >= 4 {
      assert input[q..q + 4] == input[q..q + length][..4];
      assert input[p..p + 4] == input[p..p + length][..4];
    } else {
      assert input[q..q + 4][length] != input[p..p + 4][length];
    }
  }

  predicate HasHash(hash: SlotHash, input: seq<Byte>, slot: Slot, k: nat) {
    k + 4 <= |input| && hash(input[k], input[k + 1], input[k + 2]) == slot
  }

  /** The last position before `p` whose next three bytes have this hash, if four bytes are
      left there; -1 if there is none. */
  function LastWith(hash: SlotHash, input: seq<Byte>, slot: Slot, p: nat): (q: int)
    ensures -1 <= q < p
    ensures q >= 0 ==> HasHash(hash, input, slot, q)
    ensures forall k: nat | q < k < p :: !HasHash(hash, input, slot, k)
  {
    if p == 0 then -1
    else if HasHash(hash, input, slot, p - 1) then p - 1
    else LastWith(hash, input, slot, p - 1)
  }

  /** Every slot holds the last earlier position with its hash. */
  ghost predicate Indexed(hash: SlotHash, input: seq<Byte>, table: Table, p: nat) {
    forall slot: Slot ::
      table[slot] == if LastWith(hash, input, slot, p) < 0 then NO_POSITION else LastWith(hash, input, slot, p)
  }

  lemma VisitIndexed(hash: SlotHash, input: seq<Byte>, table: Table, p: nat)
    requires Indexed(hash, input, table, p)
    ensures Indexed(hash, input, Visit(hash, input, table, p), p + 1)
  {
  }

  lemma {:induction false} RecordIndexed(hash: SlotHash, input: seq<Byte>, table: Table, cursor: nat, end: nat)
    requires cursor <= end && Indexed(hash, input, table, cursor)
    ensures Indexed(hash, input, Record(hash, input, table, cursor, end), end)
    decreases end - cursor
  {
    if cursor < end {
      VisitIndexed(hash, input, table, cursor);
      RecordIndexed(hash, input, Visit(hash, input, table, cursor), cursor + 1, end);
    }
  }

  lemma NextIndexed(hash: SlotHash, input: seq<Byte>, s: Scan)
    requires s.Within(input) && s.position < |input| && Indexed(hash, input, s.table, s.position)
    ensures Indexed(hash, input, Next(hash, input, s).table, Next(hash, input, s).position)
  {
    hide Indexed, MatchAt, Visit, Record;
    VisitIndexed(hash, input, s.table, s.position);
    var length := MatchAt(hash, input, s.table, s.position).0;
    if length != 0 {
      RecordIndexed(hash, input, Visit(hash, input, s.table, s.position), s.position + 1, s.position + length);
    }
  }

  /** The scan after `n` iterations. */
  function ScanAfter(hash: SlotHash, input: seq<Byte>, n: nat): (s: Scan)
    ensures s.Within(input)
  {
    if n == 0 then Start()
    else
      var s := ScanAfter(hash, input, n - 1);
      if s.position == |input| then s else Next(hash, input, s)
  }

  lemma {:induction false} ScanIndexed(hash: SlotHash, input: seq<Byte>, n: nat)
    ensures Indexed(hash, input, ScanAfter(hash, input, n).table, ScanAfter(hash, input, n).position)
  {
    if n > 0 {
      ScanIndexed(hash, input, n - 1);
      var s := ScanAfter(hash, input, n - 1);
      if s.position < |input| {
        NextIndexed(hash, input, s);
      }
    }
  }

  /** The last earlier position with the same hash is near enough and has the same four bytes. */
  predicate MatchPossible(hash: SlotHash, input: seq<Byte>, p: nat) {
    && p + 4 <= |input|
    && var q := LastWith(hash, input, hash(input[p], input[p + 1], input[p + 2]), p);
       q >= 0 && p - q <= 65535 && input[q..q + 4] == input[p..p + 4]
  }

  /** At every place the compressor comes to, it uses a match exactly when the last earlier
      position with the same hash is at most 65535 back and has the same four bytes. */
  lemma MatchesWherePossible(hash: SlotHash, input: seq<Byte>, n: nat)
    requires |input| <= NO_POSITION
    ensures var s := ScanAfter(hash, input, n);
            MatchAt(hash, input, s.table, s.position).0 != 0 <==> MatchPossible(hash, input, s.position)
  {
    hide ScanAfter, Indexed, MatchAt, MatchPossible;
    var s := ScanAfter(hash, input, n);
    ScanIndexed(hash, input, n);
    MatchFromIndex(hash, input, s.table, s.position);
  }

  lemma MatchFromIndex(hash: SlotHash, input: seq<Byte>, table: Table, p: nat)
    requires p <= |input| <= NO_POSITION && Indexed(hash, input, table, p)
    ensures MatchAt(hash, input, table, p).0 != 0 <==> MatchPossible(hash, input, p)
  {
    hide Indexed, MatchAt, LastWith;
    MatchIff(hash, input, table, p);
    if p + 4 <= |input| {
      IndexedAt(hash, input, table, p, hash(input[p], input[p + 1], input[p + 2]));
    }
  }

  lemma IndexedAt(hash: SlotHash, input: seq<Byte>, table: Table, p: nat, slot: Slot)
    requires Indexed(hash, input, table, p)
    ensures table[slot] == if LastWith(hash, input, slot, p) < 0 then NO_POSITION else LastWith(hash, input, slot, p)
  {
  }

  /** Five to 132 equal bytes take five bytes: one literal and one copy. */
  lemma EqualBytesCollapse(hash: SlotHash, input: seq<Byte>)
    requires 5 <= |input| <= 132 && forall i | 0 <= i < |input| :: input[i] == input[0]
    ensures Compressed(hash, input) == [0, input[0], 0x80 + (|input| - 5), 1, 0]
  {
    var n, slot := |input|, hash(input[0], input[0], input[0]);
    var s0 := Start();
    MatchIff(hash, input, s0.table, 0);
    assert MatchAt(hash, input, s0.table, 0).0 == 0;
    var s1 := Next(hash, input, s0);
    assert s1 == Scan(EmptyTable()[slot := 0], 1, 0);
    MatchIff(hash, input, s1.table, 1);
    EqualStretches(input, 0, 1, 4);
    var (length, distance) := MatchAt(hash, input, s1.table, 1);
    assert length == n - 1 && distance == 1;
    var s2 := Next(hash, input, s1);
    assert s2.position == s2.literalStart == n;
    CollapsedTokens(hash, input, s0, s1, s2);
  }

  lemma EqualStretches(input: seq<Byte>, q: nat, p: nat, length: nat)
    requires q + length <= |input| && p + length <= |input| && forall i | 0 <= i < |input| :: input[i] == input[0]
    ensures input[q..q + length] == input[p..p + length]
  {
  }

  lemma CollapsedTokens(hash: SlotHash, input: seq<Byte>, s0: Scan, s1: Scan, s2: Scan)
    requires 5 <= |input| <= 132 && s0 == Start() && s1.Within(input) && s2.Within(input)
    requires s0.position < |input| && MatchAt(hash, input, s0.table, 0).0 == 0 && s1 == Next(hash, input, s0)
    requires s1.position == 1 && s1.literalStart == 0 && MatchAt(hash, input, s1.table, 1) == (|input| - 1, 1)
    requires s2 == Next(hash, input, s1) && s2.position == s2.literalStart == |input|
    ensures Compressed(hash, input) == [0, input[0], 0x80 + (|input| - 5), 1, 0]
  {
    hide MatchAt, Next;
    var copy: WireToken := Copy(|input| - 1, 1);
    assert Tokens(hash, input, s2) == [];
    assert input[0..1] == [input[0]];
    assert Runs(input[0..1]) == [Literal([input[0]])];
    assert Emitted(hash, input, s1) == [Literal([input[0]]), copy];
    assert Tokens(hash, input, s1) == [Literal([input[0]]), copy] + [];
    assert Tokens(hash, input, s0) == [] + Tokens(hash, input, s1);
    assert Tokens(hash, input, s0) == [Literal([input[0]]), copy];
    assert [Literal([input[0]]), copy][1..] == [copy] && [copy][1..] == [];
    assert Wire([copy]) == WireOf(copy) + Wire([]);
    assert Wire([Literal([input[0]]), copy]) == WireOf(Literal([input[0]])) + Wire([copy]);
    assert WireOf(copy) == [0x80 + (|input| - 5), 1, 0];
  }

  // ---- The round trip ----

  lemma {:induction false} RunsMean(out: seq<Byte>, bytes: seq<Byte>)
    ensures Expand(out, Runs(bytes)) == Some(out + bytes)
    decreases |bytes|
  {
    if |bytes| == 0 {
      assert out + bytes == out;
    } else if |bytes| <= LITERAL_CHUNK {
      assert Expand(out + bytes, []) == Some(out + bytes);
    } else {
      var head, tail := bytes[..LITERAL_CHUNK], bytes[LITERAL_CHUNK..];
      assert out + bytes == (out + head) + tail;
      RunsMean(out + head, tail);
    }
  }

  /** Copying a match out of the text decoded so far appends exactly the matched bytes,
      also when the match overlaps the position it starts from. */
  lemma {:induction false} CopyMeans(input: seq<Byte>, position: nat, length: nat, distance: nat)
    requires 0 < distance <= position && position + length <= |input|
    requires input[position - distance..position - distance + length] == input[position..position + length]
    ensures CopyBack(input[..position], length, distance) == input[..position + length]
  {
    if length > 0 {
      var a := input[position - distance..position - distance + length];
      var b := input[position..position + length];
      Shorter(input, position - distance, length);
      Shorter(input, position, length);
      CopyMeans(input, position, length - 1, distance);
      var last := position + length - 1;
      assert input[last - distance] == a[length - 1] == b[length - 1] == input[last];
      UpTo(input, last);
    }
  }

  lemma UpTo<T>(s: seq<T>, last: nat)
    requires last < |s|
    ensures s[..last + 1] == s[..last] + [s[last]]
  {
  }

  lemma Shorter<T>(s: seq<T>, from: nat, length: nat)
    requires 0 < length && from + length <= |s|
    ensures s[from..from + length][..length - 1] == s[from..from + (length - 1)]
  {
  }

  lemma MatchMeans(input: seq<Byte>, literalStart: nat, position: nat, copy: WireToken)
    requires literalStart <= position && copy.Copy? && GoodMatch(input, position, copy.length, copy.distance)
    ensures Expand(input[..literalStart], Runs(input[literalStart..position]) + [copy])
            == Some(input[..position + copy.length])
  {
    RunsMean(input[..literalStart], input[literalStart..position]);
    assert input[..literalStart] + input[literalStart..position] == input[..position];
    ExpandSnoc(input[..literalStart], Runs(input[literalStart..position]), copy);
    CopyMeans(input, position, copy.length, copy.distance);
  }

  /** What one iteration emits stands for exactly the stretch of input it encodes. */
  lemma EmittedMeans(hash: SlotHash, input: seq<Byte>, s: Scan)
    requires s.Within(input) && s.position < |input|
    ensures Expand(input[..s.literalStart], Emitted(hash, input, s))
            == Some(input[..Next(hash, input, s).literalStart])
  {
    hide MatchAt, Visit, Record, Runs, Extend;
    var m := MatchAt(hash, input, s.table, s.position);
    if m.0 != 0 {
      MatchMeans(input, s.literalStart, s.position, Copy(m.0, m.1));
    }
  }

  /** Whatever the hash table holds, the tokens from any scan state mean the rest of the input. */
  lemma {:induction false} TokensMean(hash: SlotHash, input: seq<Byte>, s: Scan)
    requires s.Within(input)
    ensures Expand(input[..s.literalStart], Tokens(hash, input, s)) == Some(input)
    decreases |input| - s.position
  {
    if s.position == |input| {
      RunsMean(input[..s.literalStart], input[s.literalStart..]);
      assert input[..s.literalStart] + input[s.literalStart..] == input;
    } else {
      var next := Next(hash, input, s);
      EmittedMeans(hash, input, s);
      TokensMean(hash, input, next);
      ExpandConcat(input[..s.literalStart], Emitted(hash, input, s), Tokens(hash, input, next));
    }
  }

  /** The codec loses nothing: the compressed form of every input stands for that input. */
  lemma CompressedDecodes(hash: SlotHash, input: seq<Byte>)
    ensures Decodes(Compressed(hash, input), input)
  {
    TokensMean(hash, input, Start());
    assert input[..0] == [];
  }

  // ---- Size ----

  function CeilDiv(a: nat, b: nat): nat
    requires b > 0
  {
    (a + b - 1) / b
  }

  function LiteralEncodedLen(length: nat): nat {
    length + CeilDiv(length, LITERAL_CHUNK)
  }

  lemma {:induction false} RunsSize(bytes: seq<Byte>)
    ensures |Wire(Runs(bytes))| == LiteralEncodedLen(|bytes|)
    decreases |bytes|
  {
    if 0 < |bytes| <= LITERAL_CHUNK {
      assert Wire([]) == [];
    } else if |bytes| > LITERAL_CHUNK {
      RunsSize(bytes[LITERAL_CHUNK..]);
      assert Runs(bytes)[1..] == Runs(bytes[LITERAL_CHUNK..]);
    }
  }

  /** Literal bytes cost one header for every 128 of them, the last 128 not necessarily full. */
  lemma LiteralsCost(bytes: seq<Byte>, full: nat, rest: nat)
    requires |bytes| == 128 * full + rest && rest < 128
    ensures |Wire(Runs(bytes))| == |bytes| + full + if rest > 0 then 1 else 0
  {
    RunsSize(bytes);
  }

  /** Splitting a stretch costs at most one extra literal header. */
  lemma SplitCost(a: nat, b: nat)
    ensures CeilDiv(a, LITERAL_CHUNK) + CeilDiv(b, LITERAL_CHUNK) <= CeilDiv(a + b, LITERAL_CHUNK) + 1
  {
  }

  /** The bytes of one iteration: none without a match, else its runs and three more. */
  lemma EmittedSize(hash: SlotHash, input: seq<Byte>, s: Scan)
    requires s.Within(input) && s.position < |input|
    ensures |Wire(Emitted(hash, input, s))| ==
            if MatchAt(hash, input, s.table, s.position).0 == 0 then 0
            else LiteralEncodedLen(s.position - s.literalStart) + 3
  {
    var m := MatchAt(hash, input, s.table, s.position);
    if m.0 != 0 {
      var copy: WireToken := Copy(m.0, m.1);
      EmittedWire(hash, input, s, copy);
      RunsSize(input[s.literalStart..s.position]);
    }
  }

  lemma EmittedWire(hash: SlotHash, input: seq<Byte>, s: Scan, copy: WireToken)
    requires s.Within(input) && s.position < |input|
    requires copy.Copy? && (copy.length, copy.distance) == MatchAt(hash, input, s.table, s.position)
    ensures Wire(Emitted(hash, input, s)) == Wire(Runs(input[s.literalStart..s.position])) + WireOf(copy)
  {
    WireSnoc(Runs(input[s.literalStart..s.position]), copy);
  }

  lemma WireUnfold(hash: SlotHash, input: seq<Byte>, s: Scan)
    requires s.Within(input) && s.position < |input|
    ensures Wire(Tokens(hash, input, s))
            == Wire(Emitted(hash, input, s)) + Wire(Tokens(hash, input, Next(hash, input, s)))
  {
    WireConcat(Emitted(hash, input, s), Tokens(hash, input, Next(hash, input, s)));
  }

  /** The two ways an iteration of the loops below moves the scan, and what it emits. */
  lemma SkipStep(hash: SlotHash, input: seq<Byte>, s: Scan, position: nat, visited: Table)
    requires s.Within(input) && s.position == position < |input|
    requires MatchAt(hash, input, s.table, position).0 == 0
    requires visited == Visit(hash, input, s.table, position)
    ensures Wire(Tokens(hash, input, s)) == Wire(Tokens(hash, input, Scan(visited, position + 1, s.literalStart)))
  {
    WireUnfold(hash, input, s);
  }

  lemma MatchStep(hash: SlotHash, input: seq<Byte>, s: Scan, position: nat, literalStart: nat,
                  length: nat, distance: nat, visited: Table, recorded: Table, before: seq<Byte>)
    requires s.Within(input) && s.position == position < |input| && s.literalStart == literalStart
    requires (length, distance) == MatchAt(hash, input, s.table, position) && length != 0
    requires visited == Visit(hash, input, s.table, position)
    requires recorded == Record(hash, input, visited, position + 1, position + length)
    ensures before + Wire(Tokens(hash, input, s))
            == (before + (Wire(Runs(input[literalStart..position])) + WireOf(Copy(length, distance))))
               + Wire(Tokens(hash, input, Scan(recorded, position + length, position + length)))
    ensures |Wire(Runs(input[literalStart..position]))| == LiteralEncodedLen(position - literalStart)
  {
    hide MatchAt, Visit, Record, Tokens, Emitted, Runs, Wire, WireOf;
    WireUnfold(hash, input, s);
    EmittedWire(hash, input, s, Copy(length, distance));
    Regroup(before, Wire(Emitted(hash, input, s)), Wire(Tokens(hash, input, Next(hash, input, s))));
    RunsSize(input[literalStart..position]);
  }

  lemma {:induction false} TokensSize(hash: SlotHash, input: seq<Byte>, s: Scan)
    requires s.Within(input)
    ensures |Wire(Tokens(hash, input, s))| <= LiteralEncodedLen(|input| - s.literalStart)
    decreases |input| - s.position
  {
    if s.position == |input| {
      RunsSize(input[s.literalStart..]);
    } else {
      WireUnfold(hash, input, s);
      EmittedSize(hash, input, s);
      TokensSize(hash, input, Next(hash, input, s));
      var length := MatchAt(hash, input, s.table, s.position).0;
      if length != 0 {
        SplitCost(s.position - s.literalStart, |input| - s.position - length);
      }
    }
  }

  /** Compression never costs more than one header byte per 128 input bytes. */
  lemma CompressedSize(hash: SlotHash, input: seq<Byte>)
    ensures |Compressed(hash, input)| <= |input| + CeilDiv(|input|, LITERAL_CHUNK)
  {
    TokensSize(hash, input, Start());
  }

  // ---- The length predictor and the encoder ----

  method Extent(input: seq<Byte>, candidate: nat, position: nat, limit: nat) returns (length: nat)
    requires candidate < position && position + limit <= |input|
    ensures length == CommonLength(input, candidate, position, 0, limit)
  {
    length := 0;
    while length < limit && input[candidate + length] == input[position + length]
      invariant length <= limit
      invariant CommonLength(input, candidate, position, length, limit)
             == CommonLength(input, candidate, position, 0, limit)
    {
      length := length + 1;
    }
  }

  /** Looks up and replaces the slot of the bytes at `position`. */
  method LzssMatch(hash: SlotHash, input: seq<Byte>, positions: array<nat>, position: nat)
    returns (length: nat, distance: nat)
    requires positions.Length == HASH_SLOTS && position < |input|
    modifies positions
    ensures (length, distance) == MatchAt(hash, input, old(positions[..]), position)
    ensures positions[..] == Visit(hash, input, old(positions[..]), position)
  {
    if position + MIN_MATCH > |input| {
      return 0, 0;
    }
    var slot := HashAt(hash, input, position);
    var candidate := positions[slot];
    positions[slot] := position;
    if candidate == NO_POSITION || candidate >= position || position - candidate > MAX_DISTANCE {
      return 0, 0;
    }
    var available := |input| - position;
    var limit := if available < MAX_MATCH then available else MAX_MATCH;
    length := Extent(input, candidate, position, limit);
    if length < MIN_MATCH {
      return 0, 0;
    }
    distance := position - candidate;
  }

  method RecordMatchPositions(hash: SlotHash, input: seq<Byte>, positions: array<nat>, position: nat, matchLength: nat)
    requires positions.Length == HASH_SLOTS && matchLength > 0
    modifies positions
    ensures positions[..] == Record(hash, input, old(positions[..]), position + 1, position + matchLength)
  {
    var cursor := position + 1;
    var end := position + matchLength;
    ghost var start := positions[..];
    while cursor < end
      invariant cursor <= end
      invariant Record(hash, input, positions[..], cursor, end) == Record(hash, input, start, position + 1, end)
    {
      ghost var before := positions[..];
      if cursor + MIN_MATCH <= |input| {
        positions[HashAt(hash, input, cursor)] := cursor;
      }
      assert positions[..] == Visit(hash, input, before, cursor);
      cursor := cursor + 1;
    }
  }

  method CompressedLen(hash: SlotHash, input: seq<Byte>) returns (encodedLen: nat)
    ensures encodedLen == |Compressed(hash, input)|
  {
    hide MatchAt, Visit, Record, Wire, Runs;
    var positions := new nat[HASH_SLOTS](i => NO_POSITION);
    assert positions[..] == EmptyTable();
    var position: nat, literalStart: nat := 0, 0;
    encodedLen := 0;
    ghost var scan := Start();
    while position < |input|
      invariant scan.Within(input)
      invariant scan.table == positions[..] && scan.position == position && scan.literalStart == literalStart
      invariant encodedLen + |Wire(Tokens(hash, input, scan))| == |Compressed(hash, input)|
      decreases |input| - position
    {
      var matchLength, matchDistance := LzssMatch(hash, input, positions, position);
      ghost var visited := positions[..];
      if matchLength == 0 {
        SkipStep(hash, input, scan, position, visited);
        position := position + 1;
        scan := Scan(visited, position, literalStart);
        continue;
      }
      encodedLen := encodedLen + LiteralEncodedLen(position - literalStart) + 3;
      RecordMatchPositions(hash, input, positions, position, matchLength);
      MatchStep(hash, input, scan, position, literalStart, matchLength, matchDistance, visited, positions[..], []);
      position := position + matchLength;
      literalStart := position;
      scan := Scan(positions[..], position, literalStart);
    }
    RunsSize(input[literalStart..]);
    encodedLen := encodedLen + LiteralEncodedLen(|input| - literalStart);
  }

  datatype EncodeFault = IndexOutOfBounds | EncodedLengthMismatch

  /** Writes one literal run: its header and then its bytes. */
  method EmitRun(input: seq<Byte>, from: nat, to: nat, output: array<Byte>, start: nat) returns (ok: bool)
    requires from < to <= |input| && to - from <= LITERAL_CHUNK && start <= output.Length
    modifies output
    ensures ok <==> start + 1 + (to - from) <= output.Length
    ensures ok ==> output[..start + 1 + (to - from)] == old(output[..start]) + ([to - from - 1] + input[from..to])
  {
    var outputPosition := start;
    if outputPosition >= output.Length {
      return false;
    }
    output[outputPosition] := to - from - 1;
    outputPosition := outputPosition + 1;
    var literalPosition := from;
    while literalPosition < to
      invariant from <= literalPosition <= to
      invariant outputPosition == start + 1 + (literalPosition - from) <= output.Length
      invariant output[..outputPosition] == old(output[..start]) + ([to - from - 1] + input[from..literalPosition])
    {
      if outputPosition >= output.Length {
        return false;
      }
      output[outputPosition] := input[literalPosition];
      assert output[..outputPosition + 1] == output[..outputPosition] + [input[literalPosition]];
      outputPosition := outputPosition + 1;
      literalPosition := literalPosition + 1;
    }
    ok := true;
  }

  /** Writes `input[from..to]` as literal runs; false when the output array is too short. */
  method EmitLiterals(input: seq<Byte>, from: nat, to: nat, output: array<Byte>, start: nat)
    returns (ok: bool, outputPosition: nat)
    requires from <= to <= |input| && start <= output.Length
    modifies output
    ensures ok <==> start + |Wire(Runs(input[from..to]))| <= output.Length
    ensures ok ==> outputPosition == start + |Wire(Runs(input[from..to]))|
    ensures ok ==> output[..outputPosition] == old(output[..start]) + Wire(Runs(input[from..to]))
  {
    outputPosition := start;
    var literalPosition := from;
    ghost var goal := output[..start] + Wire(Runs(input[from..to]));
    while literalPosition < to
      invariant from <= literalPosition <= to && start <= outputPosition <= output.Length
      invariant output[..outputPosition] + Wire(Runs(input[literalPosition..to])) == goal
    {
      var remaining := to - literalPosition;
      var chunkLen := if remaining < LITERAL_CHUNK then remaining else LITERAL_CHUNK;
      var literalEnd := literalPosition + chunkLen;
      RunsStep(output[..outputPosition], input, literalPosition, literalEnd, to);
      ok := EmitRun(input, literalPosition, literalEnd, output, outputPosition);
      if !ok {
        return;
      }
      outputPosition := outputPosition + 1 + chunkLen;
      literalPosition := literalEnd;
    }
    ok := true;
  }

  /** Writes the pending literals and then the three bytes of a copy. */
  method EmitMatch(input: seq<Byte>, literalStart: nat, position: nat, length: nat, distance: nat,
                   output: array<Byte>, start: nat)
    returns (ok: bool, outputPosition: nat)
    requires literalStart <= position <= |input| && start <= output.Length
    requires MIN_MATCH <= length <= MAX_MATCH && distance <= MAX_DISTANCE
    modifies output
    ensures var emitted := Wire(Runs(input[literalStart..position])) + WireOf(Copy(length, distance));
            && (ok <==> start + |emitted| <= output.Length)
            && (ok ==> outputPosition == start + |emitted| && output[..outputPosition] == old(output[..start]) + emitted)
  {
    ok, outputPosition := EmitLiterals(input, literalStart, position, output, start);
    if !ok || outputPosition + 2 >= output.Length {
      return false, outputPosition;
    }
    ghost var before := output[..outputPosition];
    output[outputPosition] := 0x80 + (length - MIN_MATCH);
    output[outputPosition + 1] := distance % 256;
    output[outputPosition + 2] := distance / 256 % 256;
    outputPosition := outputPosition + 3;
    assert output[..outputPosition] == before + WireOf(Copy(length, distance));
  }

  lemma RunsStep(before: seq<Byte>, input: seq<Byte>, from: nat, mid: nat, to: nat)
    requires from < mid <= to <= |input|
    requires mid == if to - from < LITERAL_CHUNK then to else from + LITERAL_CHUNK
    ensures before + Wire(Runs(input[from..to]))
            == (before + ([mid - from - 1] + input[from..mid])) + Wire(Runs(input[mid..to]))
  {
    var bytes := input[from..to];
    Regroup(before, [mid - from - 1] + input[from..mid], Wire(Runs(input[mid..to])));
    if |bytes| <= LITERAL_CHUNK {
      assert Wire([]) == [];
    } else {
      assert bytes[..LITERAL_CHUNK] == input[from..mid];
      assert bytes[LITERAL_CHUNK..] == input[mid..to];
      assert Runs(bytes)[1..] == Runs(input[mid..to]);
    }
  }

  lemma TokensAtEnd(hash: SlotHash, input: seq<Byte>, s: Scan)
    requires s.Within(input) && s.position == |input|
    ensures Tokens(hash, input, s) == Runs(input[s.literalStart..|input|])
  {
    assert input[s.literalStart..] == input[s.literalStart..|input|];
  }

  lemma StartsEmpty()
    ensures EmptyTable() == seq(HASH_SLOTS, i => NO_POSITION)
  {
  }

  /** Encodes into an array whose length was fixed beforehand.  An array of any other
      length than the predicted one makes the source fail at compile time. */
  method Compress(hash: SlotHash, input: seq<Byte>, outputLen: nat) returns (r: Result<array<Byte>, EncodeFault>)
    ensures r.Ok? <==> outputLen == |Compressed(hash, input)|
    ensures r.Ok? ==> fresh(r.value) && r.value[..] == Compressed(hash, input)
    ensures r.Err? ==> (r.error == IndexOutOfBounds <==> outputLen < |Compressed(hash, input)|)
  {
    hide MatchAt, Visit, Record, Wire, Runs, WireOf, Tokens, EmptyTable;
    StartsEmpty();
    var positions := new nat[HASH_SLOTS](i => NO_POSITION);
    assert positions[..] == EmptyTable();
    var output := new Byte[outputLen](i => 0);
    var outputPosition: nat, position: nat, literalStart: nat := 0, 0, 0;
    ghost var scan := Start();
    ghost var goal := Compressed(hash, input);
    while position < |input|
      invariant scan.Within(input)
      invariant scan.table == positions[..] && scan.position == position && scan.literalStart == literalStart
      invariant outputPosition <= outputLen
      invariant output[..outputPosition] + Wire(Tokens(hash, input, scan)) == goal
      decreases |input| - position
    {
      var matchLength, matchDistance := LzssMatch(hash, input, positions, position);
      ghost var visited := positions[..];
      if matchLength == 0 {
        SkipStep(hash, input, scan, position, visited);
        position := position + 1;
        scan := Scan(visited, position, literalStart);
        continue;
      }
      RecordMatchPositions(hash, input, positions, position, matchLength);
      MatchStep(hash, input, scan, position, literalStart, matchLength, matchDistance,
                visited, positions[..], output[..outputPosition]);
      var ok;
      ok, outputPosition := EmitMatch(input, literalStart, position, matchLength, matchDistance, output, outputPosition);
      if !ok {
        return Err(IndexOutOfBounds);
      }
      position := position + matchLength;
      literalStart := position;
      scan := Scan(positions[..], position, literalStart);
    }
    TokensAtEnd(hash, input, scan);
    var ok;
    ok, outputPosition := EmitLiterals(input, literalStart, |input|, output, outputPosition);
    if !ok {
      return Err(IndexOutOfBounds);
    }
    if outputPosition != outputLen {
      return Err(EncodedLengthMismatch);
    }
    assert output[..] == output[..outputPosition];
    r := Ok(output);
  }

  /** What the embedding macro does: predict, encode, and decode on first use. */
  method EmbedAndLoad(hash: SlotHash, source: seq<Byte>) returns (text: seq<Byte>)
    ensures text == source
  {
    var compressedLen := CompressedLen(hash, source);
    var compressed := Compress(hash, source, compressedLen);
    CompressedDecodes(hash, source);
    var decoded := Decompress(compressed.value[..], |source|);
    text := decoded.value;
  }

  /** The embedding with the hash the codec uses. */
  method EmbedLiteral(source: seq<Byte>) returns (text: seq<Byte>)
    ensures text == source
  {
    text := EmbedAndLoad(LzssHash, source);
  }
}
