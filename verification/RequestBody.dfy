/** The bound on gateway request bodies: the declared length and the streamed body
    (frontend/assets/webview-worker-request.js). */
module RequestBody {
  import opened Wrappers
  import opened Decimal
  import Text

  type byte = bv8

  const LIMIT: nat := 8 * 1024 * 1024

  // -------------------------------------------------------------------------
  // The declared length
  // -------------------------------------------------------------------------

  datatype Declared = Acceptable | Invalid | TooLarge

  // The white space and line terminators of ECMAScript.
  predicate IsWhiteSpace(c: char) {
    || '\U{0009}' <= c <= '\U{000D}' || c == ' ' || c == '\U{00A0}' || c == '\U{1680}' || c == '\U{FEFF}'
    || '\U{2000}' <= c <= '\U{200A}' || c == '\U{2028}' || c == '\U{2029}' || c == '\U{202F}' || c == '\U{205F}' || c == '\U{3000}'
  }

  function Trim(text: string): string {
    Text.Trim(text, IsWhiteSpace)
  }

  lemma WhiteSpaceIs(c: char)
    ensures IsWhiteSpace(c) <==>
              || c in "\t\n\U{000B}\U{000C}\r \U{00A0}\U{1680}"
              || c in "\U{2000}\U{2001}\U{2002}\U{2003}\U{2004}\U{2005}\U{2006}\U{2007}\U{2008}\U{2009}\U{200A}"
              || c in "\U{2028}\U{2029}\U{202F}\U{205F}\U{3000}\U{FEFF}"
  {}

  /** Drops leading zeros while another digit follows. */
  function StripZeros(digits: string): string {
    if |digits| > 1 && digits[0] == '0' then StripZeros(digits[1..]) else digits
  }

  /** The check of a Content-Length header, by comparing numerals. */
  function RejectOversizedDeclaredBody(rawLength: Option<string>): Declared {
    match rawLength
    case None => Acceptable
    case Some(raw) =>
      var decimal := Trim(raw);
      if decimal == [] || !IsDigits(decimal) then Invalid
      else
        var normalized, limit := StripZeros(decimal), Numeral(LIMIT);
        if |normalized| > |limit| || (|normalized| == |limit| && Greater(normalized, limit)) then TooLarge
        else Acceptable
  }

  lemma {:induction false} StripKeepsValue(digits: string)
    requires digits != [] && IsDigits(digits)
    ensures var stripped := StripZeros(digits);
            && stripped != [] && IsDigits(stripped)
            && Value(stripped) == Value(digits)
            && (|stripped| > 1 ==> stripped[0] != '0')
  {
    if |digits| > 1 && digits[0] == '0' {
      ValueFromFront(digits);
      StripKeepsValue(digits[1..]);
    }
  }

  lemma LimitNumeral()
    ensures |Numeral(LIMIT)| == 7 && Power10(6) <= LIMIT < Power10(7)
  {
    assert Numeral(8) == "8";
    assert Numeral(83) == "83";
    assert Numeral(838) == "838";
    assert Numeral(8388) == "8388";
    assert Numeral(83886) == "83886";
    assert Numeral(838860) == "838860";
    assert Power10(3) == 1000;
    assert Power10(6) == 1000000;
  }

  // The comparison of numerals decides the numeric limit, for any number of digits and leading zeros.
  lemma DeclaredLengthExact(rawLength: Option<string>)
    ensures match RejectOversizedDeclaredBody(rawLength)
            case Invalid => rawLength.Some? && (Trim(rawLength.value) == [] || !IsDigits(Trim(rawLength.value)))
            case TooLarge => rawLength.Some? && IsDigits(Trim(rawLength.value)) && Value(Trim(rawLength.value)) > 8_388_608
            case Acceptable => rawLength.Some? ==> Trim(rawLength.value) != [] && IsDigits(Trim(rawLength.value))
                                                   && Value(Trim(rawLength.value)) <= 8_388_608
  {
    if rawLength.Some? && Trim(rawLength.value) != [] && IsDigits(Trim(rawLength.value)) {
      hide Trim, StripZeros, Numeral, Value, Power10, Greater;
      var decimal := Trim(rawLength.value);
      var normalized, limit := StripZeros(decimal), Numeral(LIMIT);
      StripKeepsValue(decimal);
      LimitNumeral();
      ValueOfNumeral(LIMIT);
      if |normalized| > 7 {
        NoLeadingZero(normalized);
        PowerMonotone(7, |normalized| - 1);
      } else if |normalized| == 7 {
        GreaterIsNumeric(normalized, limit);
      } else {
        ValueBound(normalized);
        PowerMonotone(|normalized|, 6);
      }
    }
  }

  // -------------------------------------------------------------------------
  // The streamed body
  // -------------------------------------------------------------------------

  datatype ReadOutcome = Chunk(bytes: seq<byte>) | Done | Failed

  /** One completed read, and whether the signal was aborted by the time it completed. */
  datatype Read = Read(outcome: ReadOutcome, aborted: bool)

  /** Pending: every read so far was a chunk, and the stream has not ended. */
  datatype BodyResult = NoBody | Body(bytes: seq<byte>) | BodyTooLarge | InvalidLength | ReadFailed | Pending

  /** What the request carries: its method, its Content-Length, and whether it has a stream. */
  datatype Request = Request(verb: string, contentLength: Option<string>, hasStream: bool)

  predicate MayHaveBody(request: Request) {
    request.verb != "GET" && request.verb != "HEAD"
  }

  /** What the reads amount to, after the bytes `taken`. */
  function StreamResult(results: seq<Read>, taken: seq<byte>): BodyResult
    decreases |results|
  {
    if results == [] then Pending
    else if results[0].aborted then Body([])
    else
      match results[0].outcome
      case Failed => ReadFailed
      case Done => Body(taken)
      case Chunk(bytes) =>
        if |bytes| > LIMIT - |taken| then BodyTooLarge else StreamResult(results[1..], taken + bytes)
  }

  function BodyOf(request: Request, abortedAtStart: bool, results: seq<Read>): BodyResult {
    if !MayHaveBody(request) then NoBody
    else
      match RejectOversizedDeclaredBody(request.contentLength)
      case Invalid => InvalidLength
      case TooLarge => BodyTooLarge
      case Acceptable =>
        if !request.hasStream || abortedAtStart then Body([]) else StreamResult(results, [])
  }

  function Flatten(chunks: seq<seq<byte>>): seq<byte> {
    if chunks == [] then [] else Flatten(chunks[..|chunks| - 1]) + chunks[|chunks| - 1]
  }

  /** The reads of an unaborted stream of `chunks` that ends. */
  function WholeStream(chunks: seq<seq<byte>>): seq<Read> {
    if chunks == [] then [Read(Done, false)] else [Read(Chunk(chunks[0]), false)] + WholeStream(chunks[1..])
  }

  function FlattenFront(chunks: seq<seq<byte>>): seq<byte> {
    if chunks == [] then [] else chunks[0] + FlattenFront(chunks[1..])
  }

  lemma {:induction false} FlattenSides(chunks: seq<seq<byte>>)
    ensures Flatten(chunks) == FlattenFront(chunks)
  {
    if |chunks| == 1 {
      assert Flatten(chunks) == Flatten(chunks[..0]) + chunks[0] == chunks[0];
      assert FlattenFront(chunks) == chunks[0] + FlattenFront(chunks[1..]) == chunks[0];
    } else if |chunks| > 1 {
      var n := |chunks| - 1;
      FlattenSides(chunks[..n]);
      FlattenSides(chunks[1..]);
      FlattenSides(chunks[..n][1..]);
      assert chunks[..n][1..] == chunks[1..][..n - 1];
      assert chunks[1..][n - 1] == chunks[n];
    }
  }

  // An unaborted stream yields the concatenation of its chunks exactly when that is within the limit.
  lemma {:induction false} WholeStreamExact(chunks: seq<seq<byte>>, taken: seq<byte>)
    requires |taken| <= LIMIT
    ensures var whole := taken + FlattenFront(chunks);
            StreamResult(WholeStream(chunks), taken) == if |whole| <= LIMIT then Body(whole) else BodyTooLarge
    decreases |chunks|
  {
    var results := WholeStream(chunks);
    if chunks != [] {
      assert results[1..] == WholeStream(chunks[1..]);
      if |chunks[0]| <= LIMIT - |taken| {
        WholeStreamExact(chunks[1..], taken + chunks[0]);
        assert taken + FlattenFront(chunks) == taken + chunks[0] + FlattenFront(chunks[1..]);
      }
    } else {
      assert taken + FlattenFront(chunks) == taken;
    }
  }

  lemma BodyExact(request: Request, chunks: seq<seq<byte>>)
    requires MayHaveBody(request) && request.hasStream
    requires RejectOversizedDeclaredBody(request.contentLength) == Acceptable
    ensures BodyOf(request, false, WholeStream(chunks))
         == if |Flatten(chunks)| <= LIMIT then Body(Flatten(chunks)) else BodyTooLarge
  {
    hide RejectOversizedDeclaredBody;
    FlattenSides(chunks);
    WholeStreamExact(chunks, []);
    assert [] + FlattenFront(chunks) == FlattenFront(chunks);
  }

  // Whatever happens, no returned body exceeds the limit.
  lemma {:induction false} BodyWithinLimit(results: seq<Read>, taken: seq<byte>)
    requires |taken| <= LIMIT
    ensures StreamResult(results, taken).Body? ==> |StreamResult(results, taken).bytes| <= LIMIT
    decreases |results|
  {
    if results != [] && !results[0].aborted && results[0].outcome.Chunk? {
      var bytes := results[0].outcome.bytes;
      if |bytes| <= LIMIT - |taken| {
        BodyWithinLimit(results[1..], taken + bytes);
      }
    }
  }

  /** The reads of an unaborted stream that has given `chunks` so far. */
  function PlainReads(chunks: seq<seq<byte>>): seq<Read> {
    if chunks == [] then [] else [Read(Chunk(chunks[0]), false)] + PlainReads(chunks[1..])
  }

  lemma AfterChunk(bytes: seq<byte>, rest: seq<Read>, taken: seq<byte>)
    ensures StreamResult([Read(Chunk(bytes), false)] + rest, taken)
         == if |bytes| > LIMIT - |taken| then BodyTooLarge else StreamResult(rest, taken + bytes)
  {
    assert ([Read(Chunk(bytes), false)] + rest)[1..] == rest;
  }

  lemma PlainReadsCons(chunks: seq<seq<byte>>, rest: seq<Read>, taken: seq<byte>)
    requires chunks != []
    ensures PlainReads(chunks) + rest == [Read(Chunk(chunks[0]), false)] + (PlainReads(chunks[1..]) + rest)
    ensures taken + FlattenFront(chunks) == taken + chunks[0] + FlattenFront(chunks[1..])
  {}

  lemma PlainReadsOfNone(rest: seq<Read>, taken: seq<byte>)
    ensures PlainReads([]) + rest == rest && taken + FlattenFront([]) == taken
  {}

  lemma {:induction false} AfterPlainReads(chunks: seq<seq<byte>>, rest: seq<Read>, taken: seq<byte>)
    requires |taken| <= LIMIT
    ensures var whole := taken + FlattenFront(chunks);
            StreamResult(PlainReads(chunks) + rest, taken)
            == if |whole| <= LIMIT then StreamResult(rest, whole) else BodyTooLarge
    decreases |chunks|
  {
    hide StreamResult, PlainReads, FlattenFront;
    if chunks == [] {
      PlainReadsOfNone(rest, taken);
    } else {
      PlainReadsCons(chunks, rest, taken);
      AfterChunk(chunks[0], PlainReads(chunks[1..]) + rest, taken);
      if |chunks[0]| <= LIMIT - |taken| {
        AfterPlainReads(chunks[1..], rest, taken + chunks[0]);
      }
    }
  }

  // What a stream amounts to, by the first read that is no plain chunk or that brings the total above 8 MiB.
  lemma StreamExact(chunks: seq<seq<byte>>, next: Read, rest: seq<Read>)
    ensures var whole := Flatten(chunks);
            && StreamResult(PlainReads(chunks), []) == (if |whole| <= 8_388_608 then Pending else BodyTooLarge)
            && StreamResult(PlainReads(chunks) + [next] + rest, []) ==
                 if |whole| > 8_388_608 then BodyTooLarge
                 else if next.aborted then Body([])
                 else
                   match next.outcome
                   case Failed => ReadFailed
                   case Done => Body(whole)
                   case Chunk(bytes) =>
                     if |whole + bytes| > 8_388_608 then BodyTooLarge else StreamResult(rest, whole + bytes)
  {
    FlattenSides(chunks);
    assert [] + FlattenFront(chunks) == FlattenFront(chunks);
    assert PlainReads(chunks) + [] == PlainReads(chunks);
    assert PlainReads(chunks) + [next] + rest == PlainReads(chunks) + ([next] + rest);
    assert ([next] + rest)[1..] == rest;
    AfterPlainReads(chunks, [], []);
    AfterPlainReads(chunks, [next] + rest, []);
  }

  // Only GET and HEAD go without a body. Otherwise the declared length is decided first, a request without a
  // stream or aborted at the start has the empty body, and any other that of its stream.
  lemma BodyDecided(request: Request, abortedAtStart: bool, results: seq<Read>)
    ensures var result := BodyOf(request, abortedAtStart, results);
            var declared := RejectOversizedDeclaredBody(request.contentLength);
            && (result == NoBody <==> request.verb == "GET" || request.verb == "HEAD")
            && (result != NoBody ==>
                  && (result == InvalidLength <==> declared == Invalid)
                  && (declared == TooLarge ==> result == BodyTooLarge)
                  && (declared == Acceptable && (!request.hasStream || abortedAtStart) ==> result == Body([]))
                  && (declared == Acceptable && request.hasStream && !abortedAtStart ==>
                        result == StreamResult(results, [])))
  {
    hide RejectOversizedDeclaredBody;
    NoStreamLacksBody(results, []);
  }

  lemma {:induction false} NoStreamLacksBody(results: seq<Read>, taken: seq<byte>)
    ensures !StreamResult(results, taken).NoBody? && !StreamResult(results, taken).InvalidLength?
    decreases |results|
  {
    if results != [] && !results[0].aborted && results[0].outcome.Chunk? {
      NoStreamLacksBody(results[1..], taken + results[0].outcome.bytes);
    }
  }

  lemma {:induction false} FlattenLength(chunks: seq<seq<byte>>, k: nat)
    requires k < |chunks|
    ensures Flatten(chunks[..k + 1]) == Flatten(chunks[..k]) + chunks[k]
    ensures |Flatten(chunks[..k + 1])| <= |Flatten(chunks)|
    decreases |chunks| - k
  {
    assert chunks[..k + 1][..k] == chunks[..k];
    if k + 1 == |chunks| {
      assert chunks[..k + 1] == chunks;
    } else {
      FlattenLength(chunks, k + 1);
    }
  }

  /** Copies the chunks one after the other into one array. */
  method Assemble(chunks: seq<seq<byte>>, total: nat) returns (body: seq<byte>)
    requires total == |Flatten(chunks)|
    ensures body == Flatten(chunks)
  {
    var bytes := new byte[total](_ => 0);
    var offset := 0;
    for k := 0 to |chunks|
      invariant offset == |Flatten(chunks[..k])| <= total
      invariant bytes[..offset] == Flatten(chunks[..k])
    {
      FlattenLength(chunks, k);
      var chunk := chunks[k];
      forall p | 0 <= p < |chunk| {
        bytes[offset + p] := chunk[p];
      }
      assert bytes[..offset + |chunk|] == bytes[..offset] + chunk;
      offset := offset + |chunk|;
    }
    assert chunks[..|chunks|] == chunks;
    body := bytes[..];
    assert bytes[..offset] == bytes[..];
  }

  /** What became of the reader of the stream: never taken, still holding its lock, or unlocked again. */
  datatype Reader = NotTaken | Locked | Released(cancelled: bool)

  predicate IsPlainChunk(read: Read) {
    !read.aborted && read.outcome.Chunk?
  }

  /** Reads the body; `results` are those of successive reads of its stream, of which `count` are made. No read
      follows the end, an abort or an excess; the reader is unlocked on every way out, and cancelled exactly on an
      abort or an excess. */
  method ReadGatewayRequestBody(request: Request, abortedAtStart: bool, results: seq<Read>)
    returns (result: BodyResult, reader: Reader, count: nat)
    ensures result == BodyOf(request, abortedAtStart, results)
    ensures count <= |results| && forall k | 0 <= k < count - 1 :: IsPlainChunk(results[k])
    ensures reader == NotTaken
       <==> !MayHaveBody(request) || RejectOversizedDeclaredBody(request.contentLength) != Acceptable || !request.hasStream
    ensures reader == Locked <==> result == Pending
    ensures reader.Released? ==>
              (reader.cancelled <==> abortedAtStart || (count > 0 && results[count - 1].aborted) || result == BodyTooLarge)
    ensures reader == NotTaken || abortedAtStart ==> count == 0
  {
    hide RejectOversizedDeclaredBody;
    if !MayHaveBody(request) {
      return NoBody, NotTaken, 0;
    }
    match RejectOversizedDeclaredBody(request.contentLength) {
      case Invalid => return InvalidLength, NotTaken, 0;
      case TooLarge => return BodyTooLarge, NotTaken, 0;
      case Acceptable =>
    }
    if !request.hasStream {
      return Body([]), NotTaken, 0;
    }
    if abortedAtStart {
      return Body([]), Released(true), 0;
    }
    var chunks: seq<seq<byte>> := [];
    var total := 0;
    count := 0;
    while count < |results|
      invariant count <= |results| && forall k | 0 <= k < count :: IsPlainChunk(results[k])
      invariant total == |Flatten(chunks)| <= LIMIT
      invariant StreamResult(results, []) == StreamResult(results[count..], Flatten(chunks))
    {
      var read := results[count];
      assert results[count..][1..] == results[count + 1..];
      count := count + 1;
      if read.aborted {
        return Body([]), Released(true), count;
      }
      match read.outcome {
        case Failed => return ReadFailed, Released(false), count;
        case Done =>
          var body := Assemble(chunks, total);
          return Body(body), Released(false), count;
        case Chunk(chunk) =>
          if |chunk| > LIMIT - total {
            return BodyTooLarge, Released(true), count;
          }
          assert (chunks + [chunk])[..|chunks|] == chunks;
          chunks := chunks + [chunk];
          total := total + |chunk|;
      }
    }
    return Pending, Locked, count;
  }
}
