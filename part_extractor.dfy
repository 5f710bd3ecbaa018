/** getPart: choose the text of a message. A multipart message contributes
    the bytes of every part whose Content-Type header starts with the
    requested prefix, in part order; any other message contributes its whole
    body. Media-type parsing and boundary splitting are done by library code
    and arrive here as inputs. */
module PartExtractor {
  import opened Mail

  /** One MIME part as NextPart hands it over: its header block and what
      reading its content to the end produced. */
  datatype Part = Part(header: Header, content: Read)

  /** The raw, unparsed Content-Type value of a part ("" when it has none). */
  function ContentType(p: Part): string {
    Get(p.header, "Content-Type")
  }

  /** One successful call of NextPart before end-of-parts: a part, or the
      error the multipart reader reported instead. */
  datatype PartItem = GoodPart(part: Part) | BadPart(error: Error)

  /** What NextPart returns: end-of-parts (io.EOF) or the next item. */
  datatype NextResult = Eof | Next(item: PartItem)

  /** A message as the rest of the program sees it: its header, the media
      type parsed from its Content-Type (or the parse error), its body read
      whole, and the items the multipart reader yields over that body. */
  datatype Message = Message(header: Header, mediaType: Result<string>, body: Read, parts: seq<PartItem>)

  /** getPart's two ways out: a returned (text, error) pair, or log.Fatal. */
  datatype Outcome = Returned(text: seq<byte>, err: Option<Error>) | Fatal(error: Error)

  /** A part after it has been read completely. */
  datatype Slurped = Slurped(contentType: string, data: seq<byte>)

  // ---------------------------------------------------------------------
  // Specification
  // ---------------------------------------------------------------------

  /** An item the loop gets through without calling log.Fatal. */
  predicate Clean(item: PartItem) {
    item.GoodPart? && item.part.content.Complete?
  }

  /** The error that stops the loop at an item that is not clean. */
  function StopError(item: PartItem): Error
    requires !Clean(item)
  {
    if item.BadPart? then item.error else item.part.content.error
  }

  function SlurpedOf(item: PartItem): Slurped
    requires Clean(item)
  {
    Slurped(ContentType(item.part), item.part.content.data)
  }

  /** Read every part in turn: the first failure (from NextPart or from
      reading a part) is fatal, otherwise every part comes out read. */
  function Slurp(items: seq<PartItem>): Result<seq<Slurped>> {
    if items == [] then Ok([])
    else if !Clean(items[0]) then Err(StopError(items[0]))
    else match Slurp(items[1..])
      case Err(e) => Err(e)
      case Ok(rest) => Ok([SlurpedOf(items[0])] + rest)
  }

  /** Whether a read part's raw Content-Type starts with `ctype`. */
  predicate Matches(p: Slurped, ctype: string) {
    HasPrefix(p.contentType, ctype)
  }

  /** The bytes the loop appends to its buffer, in part order. */
  function Select(ps: seq<Slurped>, ctype: string): seq<byte> {
    if ps == [] then []
    else (if Matches(ps[0], ctype) then ps[0].data else []) + Select(ps[1..], ctype)
  }

  /** getPart, as a value. */
  function GetPartSpec(msg: Message, ctype: string): Outcome {
    match msg.mediaType
    case Err(e) => Fatal(e)
    case Ok(mediaType) =>
      if HasPrefix(mediaType, "multipart/") then
        match Slurp(msg.parts)
        case Err(e) => Fatal(e)
        case Ok(ps) => Returned(Select(ps, ctype), None)
      else
        match msg.body
        case Failed(_, e) => Returned([], Some(e))
        case Complete(data) => Returned(data, None)
  }

  // ---------------------------------------------------------------------
  // An independent reference for the selection: filter, then concatenate.
  // ---------------------------------------------------------------------

  /** The matching parts, in their original order. */
  function Filter(ps: seq<Slurped>, ctype: string): (r: seq<Slurped>)
    ensures |r| <= |ps|
    ensures forall p :: p in r <==> p in ps && Matches(p, ctype)
  {
    if ps == [] then []
    else (if Matches(ps[0], ctype) then [ps[0]] else []) + Filter(ps[1..], ctype)
  }

  /** Filtering two runs of parts is filtering each in turn: kept parts stay
      in their original relative order. */
  lemma {:induction false} FilterAppend(a: seq<Slurped>, b: seq<Slurped>, ctype: string)
    ensures Filter(a + b, ctype) == Filter(a, ctype) + Filter(b, ctype)
  {
    if a == [] {
      assert a + b == b;
    } else {
      assert (a + b)[0] == a[0] && (a + b)[1..] == a[1..] + b;
      FilterAppend(a[1..], b, ctype);
    }
  }

  /** Every matching part is kept exactly as often as it occurs, and no
      other part is kept: nothing is skipped or duplicated. */
  lemma {:induction false} FilterCount(ps: seq<Slurped>, ctype: string, p: Slurped)
    ensures multiset(Filter(ps, ctype))[p] == if Matches(p, ctype) then multiset(ps)[p] else 0
  {
    if ps != [] {
      FilterCount(ps[1..], ctype, p);
      assert ps == [ps[0]] + ps[1..];
      assert multiset(ps) == multiset([ps[0]]) + multiset(ps[1..]);
      var head := if Matches(ps[0], ctype) then [ps[0]] else [];
      assert multiset(Filter(ps, ctype)) == multiset(head) + multiset(Filter(ps[1..], ctype));
    }
  }

  /** The contents of the given parts, one after the other. */
  function Flatten(ps: seq<Slurped>): seq<byte> {
    if ps == [] then [] else ps[0].data + Flatten(ps[1..])
  }

  /** The selection is exactly the concatenation of the matching parts. */
  lemma {:induction false} SelectIsFlattenFilter(ps: seq<Slurped>, ctype: string)
    ensures Select(ps, ctype) == Flatten(Filter(ps, ctype))
  {
    if ps != [] {
      SelectIsFlattenFilter(ps[1..], ctype);
      var head := if Matches(ps[0], ctype) then [ps[0]] else [];
      FlattenAppend(head, Filter(ps[1..], ctype));
      if Matches(ps[0], ctype) {
        assert Flatten(head) == ps[0].data + Flatten([]);
      }
    }
  }

  lemma {:induction false} FlattenAppend(a: seq<Slurped>, b: seq<Slurped>)
    ensures Flatten(a + b) == Flatten(a) + Flatten(b)
  {
    if a == [] {
      assert a + b == b;
    } else {
      assert (a + b)[0] == a[0] && (a + b)[1..] == a[1..] + b;
      FlattenAppend(a[1..], b);
    }
  }

  /** Selecting from two runs of parts is selecting from each in turn. */
  lemma {:induction false} SelectAppend(a: seq<Slurped>, b: seq<Slurped>, ctype: string)
    ensures Select(a + b, ctype) == Select(a, ctype) + Select(b, ctype)
  {
    if a == [] {
      assert a + b == b;
    } else {
      assert (a + b)[0] == a[0] && (a + b)[1..] == a[1..] + b;
      SelectAppend(a[1..], b, ctype);
    }
  }

  /** Parts that do not match contribute nothing: with no match the text is empty. */
  lemma {:induction false} SelectNoMatch(ps: seq<Slurped>, ctype: string)
    requires forall k :: 0 <= k < |ps| ==> !Matches(ps[k], ctype)
    ensures Select(ps, ctype) == []
  {
    if ps != [] {
      SelectNoMatch(ps[1..], ctype);
    }
  }

  /** With the empty prefix every part matches, so every part's content is kept. */
  lemma {:induction false} SelectEmptyPrefix(ps: seq<Slurped>)
    ensures Select(ps, "") == Flatten(ps)
  {
    if ps != [] {
      HasPrefixFacts(ps[0].contentType, [], []);
      SelectEmptyPrefix(ps[1..]);
    }
  }

  // ---------------------------------------------------------------------
  // Each part is visited exactly once, in order; the first failure is fatal.
  // ---------------------------------------------------------------------

  /** Reading succeeds exactly when every item is clean, and then yields one
      read part per item, in the same order. */
  lemma {:induction false} SlurpAllClean(items: seq<PartItem>)
    ensures Slurp(items).Ok? <==> forall k :: 0 <= k < |items| ==> Clean(items[k])
    ensures Slurp(items).Ok? ==>
      |Slurp(items).value| == |items| &&
      forall k :: 0 <= k < |items| ==> Slurp(items).value[k] == SlurpedOf(items[k])
  {
    if items != [] {
      SlurpAllClean(items[1..]);
      if Clean(items[0]) && Slurp(items[1..]).Ok? {
        var rest := Slurp(items[1..]).value;
        forall k | 0 <= k < |items|
          ensures Slurp(items).value[k] == SlurpedOf(items[k])
        {
          if k > 0 {
            assert items[k] == items[1..][k - 1];
          }
        }
      }
      if !Clean(items[0]) {
        assert !(forall k :: 0 <= k < |items| ==> Clean(items[k]));
      } else if Slurp(items[1..]).Err? {
        var j :| 0 <= j < |items[1..]| && !Clean(items[1..][j]);
        assert !Clean(items[j + 1]);
      } else {
        forall k | 0 <= k < |items| ensures Clean(items[k]) {
          if k > 0 {
            assert items[k] == items[1..][k - 1];
          }
        }
      }
    }
  }

  /** Reading a run of items and then another is reading their concatenation. */
  lemma {:induction false} SlurpAppend(a: seq<PartItem>, b: seq<PartItem>)
    ensures Slurp(a + b) ==
      match Slurp(a)
      case Err(e) => Err(e)
      case Ok(pa) =>
        match Slurp(b)
        case Err(e) => Err(e)
        case Ok(pb) => Ok(pa + pb)
  {
    if a == [] {
      assert a + b == b;
      if Slurp(b).Ok? {
        assert [] + Slurp(b).value == Slurp(b).value;
      }
    } else {
      assert (a + b)[0] == a[0] && (a + b)[1..] == a[1..] + b;
      SlurpAppend(a[1..], b);
      if Clean(a[0]) && Slurp(a[1..]).Ok? && Slurp(b).Ok? {
        var pa, pb := Slurp(a[1..]).value, Slurp(b).value;
        assert [SlurpedOf(a[0])] + (pa + pb) == ([SlurpedOf(a[0])] + pa) + pb;
      }
    }
  }

  /** Once the loop has read items[..i] without failure, a failure at item i
      is the outcome of reading the whole sequence. */
  lemma SlurpStopsAt(items: seq<PartItem>, i: nat)
    requires i < |items| && Slurp(items[..i]).Ok? && !Clean(items[i])
    ensures Slurp(items) == Err(StopError(items[i]))
  {
    assert items == items[..i] + items[i..];
    assert items[i..][0] == items[i];
    SlurpAppend(items[..i], items[i..]);
  }

  // ---------------------------------------------------------------------
  // getPart's promises, stated on the specification.
  // ---------------------------------------------------------------------

  /** A message that is not multipart yields its whole body, whatever the
      requested prefix; a read error yields the still-empty text with the error. */
  lemma GetPartNotMultipart(msg: Message, ctype: string, other: string)
    requires msg.mediaType.Ok? && !HasPrefix(msg.mediaType.value, "multipart/")
    ensures GetPartSpec(msg, ctype) == GetPartSpec(msg, other)
    ensures msg.body.Complete? ==> GetPartSpec(msg, ctype) == Returned(msg.body.data, None)
    ensures msg.body.Failed? ==> GetPartSpec(msg, ctype) == Returned([], Some(msg.body.error))
  {
  }

  /** A multipart message whose parts all read cleanly yields the
      concatenation, in part order, of the contents of exactly the parts
      whose Content-Type starts with the prefix. */
  lemma MultipartSelectsMatching(msg: Message, ctype: string)
    requires msg.mediaType.Ok? && HasPrefix(msg.mediaType.value, "multipart/")
    requires forall k :: 0 <= k < |msg.parts| ==> Clean(msg.parts[k])
    ensures GetPartSpec(msg, ctype).Returned? && GetPartSpec(msg, ctype).err == None
    ensures GetPartSpec(msg, ctype).text ==
      Flatten(Filter(seq(|msg.parts|, k requires 0 <= k < |msg.parts| => SlurpedOf(msg.parts[k])), ctype))
  {
    SlurpAllClean(msg.parts);
    var ps := Slurp(msg.parts).value;
    assert ps == seq(|msg.parts|, k requires 0 <= k < |msg.parts| => SlurpedOf(msg.parts[k]));
    SelectIsFlattenFilter(ps, ctype);
  }

  /** A multipart message with no matching part yields the empty text. */
  lemma MultipartNoMatch(msg: Message, ctype: string)
    requires msg.mediaType.Ok? && HasPrefix(msg.mediaType.value, "multipart/")
    requires forall k :: 0 <= k < |msg.parts| ==>
      Clean(msg.parts[k]) && !HasPrefix(ContentType(msg.parts[k].part), ctype)
    ensures GetPartSpec(msg, ctype) == Returned([], None)
  {
    SlurpAllClean(msg.parts);
    SelectNoMatch(Slurp(msg.parts).value, ctype);
  }

  /** A failure anywhere among the parts, even in a part that would not have
      matched, is fatal: it is the first failure that is reported. */
  lemma MultipartFailure(msg: Message, ctype: string, i: nat)
    requires msg.mediaType.Ok? && HasPrefix(msg.mediaType.value, "multipart/")
    requires i < |msg.parts| && !Clean(msg.parts[i])
    requires forall k :: 0 <= k < i ==> Clean(msg.parts[k])
    ensures GetPartSpec(msg, ctype) == Fatal(StopError(msg.parts[i]))
  {
    var prefix := msg.parts[..i];
    forall k | 0 <= k < |prefix| ensures Clean(prefix[k]) {
      assert prefix[k] == msg.parts[k];
    }
    SlurpAllClean(prefix);
    SlurpStopsAt(msg.parts, i);
  }

  /** The prefix test reads the raw header: parameters after the media type
      do not stop a match, and letter case does. */
  lemma ParametersDoNotBlock()
    ensures HasPrefix("text/plain; charset=utf-8", "text/plain")
    ensures !HasPrefix("Text/Plain", "text/plain")
  {
    assert "text/plain; charset=utf-8"[..10] == "text/plain";
    assert "Text/Plain"[0] != "text/plain"[0];
  }

  /** A two-part alternative message: the plain-text part, parameters and
      all, is kept; the HTML part is dropped. */
  lemma MultipartExample()
    ensures GetPartSpec(
      Message(map[], Ok("multipart/alternative"), Complete([]),
        [GoodPart(Part(map["Content-Type" := ["text/plain; charset=utf-8"]], Complete([104, 105]))),
         GoodPart(Part(map["Content-Type" := ["text/html"]], Complete([60, 98, 62])))]),
      "text/plain") == Returned([104, 105], None)
  {
    ParametersDoNotBlock();
    assert "multipart/alternative"[..10] == "multipart/";
    assert "text/html"[7] != "text/plain"[7];
    var items := [GoodPart(Part(map["Content-Type" := ["text/plain; charset=utf-8"]], Complete([104, 105]))),
                  GoodPart(Part(map["Content-Type" := ["text/html"]], Complete([60, 98, 62])))];
    var ps := [Slurped("text/plain; charset=utf-8", [104, 105]), Slurped("text/html", [60, 98, 62])];
    assert ContentType(items[0].part) == ps[0].contentType;
    assert ContentType(items[1].part) == ps[1].contentType;
    var tail := items[1..];
    assert tail[0] == items[1] && tail[1..] == [];
    assert SlurpedOf(items[1]) == ps[1] && SlurpedOf(items[0]) == ps[0];
    assert Slurp(tail[1..]) == Ok([]);
    assert [ps[1]] + [] == ps[1..];
    assert Slurp(tail) == Ok(ps[1..]);
    assert [ps[0]] + ps[1..] == ps;
    assert Slurp(items) == Ok(ps);
    assert ps[1..][1..] == [];
    assert Select(ps, "text/plain") == [104, 105];
  }

  // ---------------------------------------------------------------------
  // The imperative code: a byte buffer, the multipart reader, and getPart.
  // ---------------------------------------------------------------------

  /** bytes.Buffer, written to only at its end. */
  class Buffer {
    var bytes: seq<byte>

    constructor ()
      ensures bytes == []
    {
      bytes := [];
    }

    /** Append `p` to the buffer. */
    method Write(p: seq<byte>)
      modifies this
      ensures bytes == old(bytes) + p
    {
      bytes := bytes + p;
    }
  }

  /** multipart.Reader over an already split body: successive NextPart calls
      hand out `items` in order, then report end-of-parts. */
  class PartReader {
    const items: seq<PartItem>
    var pos: nat

    ghost predicate Valid()
      reads this
    {
      pos <= |items|
    }

    constructor (items: seq<PartItem>)
      ensures Valid() && this.items == items && pos == 0
    {
      this.items := items;
      pos := 0;
    }

    /** The next item, or Eof once every item has been handed out. */
    method NextPart() returns (r: NextResult)
      requires Valid()
      modifies this
      ensures Valid()
      ensures old(pos) == |items| ==> r == Eof && pos == old(pos)
      ensures old(pos) < |items| ==> r == Next(items[old(pos)]) && pos == old(pos) + 1
    {
      if pos == |items| {
        r := Eof;
      } else {
        r := Next(items[pos]);
        pos := pos + 1;
      }
    }
  }

  /** getPart: one pass over the parts, appending each matching part to a
      buffer after reading it in full. */
  method GetPart(msg: Message, ctype: string) returns (out: Outcome)
    ensures out == GetPartSpec(msg, ctype)
  {
    if msg.mediaType.Err? {
      return Fatal(msg.mediaType.error);
    }
    var mediaType := msg.mediaType.value;
    var body := new Buffer();
    if HasPrefix(mediaType, "multipart/") {
      var mr := new PartReader(msg.parts);
      ghost var seen: seq<Slurped> := [];
      while true
        invariant mr.Valid() && mr.items == msg.parts
        invariant Slurp(msg.parts[..mr.pos]) == Ok(seen)
        invariant body.bytes == Select(seen, ctype)
        decreases |mr.items| - mr.pos
      {
        ghost var i := mr.pos;
        var next := mr.NextPart();
        if next.Eof? {
          break;
        }
        assert msg.parts[i] == next.item;
        if next.item.BadPart? {
          SlurpStopsAt(msg.parts, i);
          return Fatal(next.item.error);
        }
        var p := next.item.part;
        if p.content.Failed? {
          SlurpStopsAt(msg.parts, i);
          return Fatal(p.content.error);
        }
        var slurp := p.content.data;
        ghost var read := Slurped(ContentType(p), slurp);
        assert msg.parts[..i + 1] == msg.parts[..i] + [next.item];
        SlurpAppend(msg.parts[..i], [next.item]);
        assert [next.item][1..] == [] && [read] + [] == [read];
        assert Slurp([next.item]) == Ok([read]);
        SelectAppend(seen, [read], ctype);
        if HasPrefix(ContentType(p), ctype) {
          body.Write(slurp);
        }
        seen := seen + [read];
      }
      assert msg.parts[..mr.pos] == msg.parts;
      return Returned(body.bytes, None);
    } else {
      match msg.body
      case Failed(_, e) =>
        return Returned(body.bytes, Some(e));
      case Complete(text) =>
        body.Write(text);
        return Returned(body.bytes, None);
    }
  }
}
