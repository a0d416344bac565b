// The chunked coding as the body states read it, and the proof that they accept
// exactly the texts of that form and report exactly their data. A size digit is
// what the table `unhex` takes for one, and an extension is anything without a
// CR behind a semicolon or a space; HttpRfc says how this differs from the
// standard.
module HttpChunks {
  import opened Circular
  import opened HttpDigits
  import opened HttpBody
  import opened Seqs

  /** A size line: hexadecimal digits and, perhaps, an extension. */
  datatype Line = Line(size: seq<Byte>, ext: seq<Byte>)
  datatype Chunk = Chunk(line: Line, data: seq<Byte>)

  function LineText(l: Line): seq<Byte> { l.size + l.ext + CRLF }
  function ChunkText(c: Chunk): seq<Byte> { LineText(c.line) + c.data + CRLF }
  function Texts(cs: seq<Chunk>): seq<Byte> {
    if cs == [] then [] else Texts(cs[..|cs| - 1]) + ChunkText(cs[|cs| - 1])
  }

  predicate Extension(ext: seq<Byte>) {
    ext == [] || ((ext[0] == SEMICOLON || ext[0] == SP) && forall i | 0 <= i < |ext| :: ext[i] != CR)
  }

  /** `n` bytes can be counted without passing the limit. The count has 32 bits,
      so that the largest limit is never passed. */
  predicate Fits(limit: nat, n: nat) { n <= limit || limit >= M32 - 1 }

  predicate LineOk(limit: nat, l: Line, size: nat) {
    && l.size != [] && IsHex(l.size) && HexValue(l.size) == size <= ABSENT - 16
    && Extension(l.ext)
    && Fits(limit, |LineText(l)|)
  }

  predicate ChunkOk(limit: nat, c: Chunk) { c.data != [] && LineOk(limit, c.line, |c.data|) }

  predicate ChunksOk(limit: nat, cs: seq<Chunk>) {
    forall i | 0 <= i < |cs| :: ChunkOk(limit, cs[i])
  }

  function ChunkEvents(c: Chunk): seq<Event> {
    [ChunkHeader(|c.data|)] + BodyBytes(c.data) + [ChunkComplete]
  }

  function Events(cs: seq<Chunk>): seq<Event> {
    if cs == [] then [] else Events(cs[..|cs| - 1]) + ChunkEvents(cs[|cs| - 1])
  }

  /** A machine about to read a chunk. */
  predicate Fresh(m: Machine) { m.st.SizeStart? && m.nread == 0 && m.err == Ok && m.length <= ABSENT }

  // ---- where a machine stands in a text ----

  /** What has been read since the last whole chunk. */
  datatype Part = Part(line: Line, data: seq<Byte>)

  function PartText(st: State, p: Part): seq<Byte> {
    match st
    case SizeStart => []
    case Size => p.line.size
    case Parameters => p.line.size + p.line.ext
    case SizeAlmostDone => p.line.size + p.line.ext + [CR]
    case Trailers => LineText(p.line)
    case Data => LineText(p.line) + p.data
    case DataAlmostDone => LineText(p.line) + p.data
    case DataDone => LineText(p.line) + p.data + [CR]
    case _ => []
  }

  function PartEvents(st: State, p: Part): seq<Event> {
    match st
    case Trailers => [ChunkHeader(0)]
    case Data => [ChunkHeader(HexSize(p))] + BodyBytes(p.data)
    case DataAlmostDone => [ChunkHeader(HexSize(p))] + BodyBytes(p.data)
    case DataDone => [ChunkHeader(HexSize(p))] + BodyBytes(p.data)
    case _ => []
  }

  function HexSize(p: Part): nat {
    if IsHex(p.line.size) then HexValue(p.line.size) else 0
  }

  /** The counters agree with the part that was read. */
  predicate PartOk(limit: nat, m: Machine, p: Part) {
    var n := HexSize(p);
    match m.st
    case SizeStart => m.nread == 0
    case Size =>
      && p.line.size != [] && IsHex(p.line.size) && p.line.ext == []
      && m.length == n <= ABSENT - 16
      && m.nread == U32(|p.line.size|) && Fits(limit, |p.line.size|)
    case Parameters =>
      && p.line.size != [] && IsHex(p.line.size) && p.line.ext != [] && Extension(p.line.ext)
      && m.length == n <= ABSENT - 16
      && m.nread == U32(|p.line.size + p.line.ext|) && Fits(limit, |p.line.size + p.line.ext|)
    case SizeAlmostDone =>
      && p.line.size != [] && IsHex(p.line.size) && Extension(p.line.ext)
      && m.length == n <= ABSENT - 16
      && m.nread == U32(|p.line.size + p.line.ext| + 1) && Fits(limit, |p.line.size + p.line.ext| + 1)
    case Trailers => LineOk(limit, p.line, 0)
    case Data => LineOk(limit, p.line, n) && m.length > 0 && |p.data| + m.length == n
    case DataAlmostDone => LineOk(limit, p.line, n) && m.length == 0 && |p.data| == n > 0
    case DataDone => LineOk(limit, p.line, n) && |p.data| == n > 0
    case _ => false
  }

  lemma Counting(limit: nat, n: nat)
    requires Fits(limit, n)
    ensures U32(U32(n) + 1) == U32(n + 1)
    ensures U32(n + 1) <= limit <==> Fits(limit, n + 1)
  {
    U32Add(n, 1);
  }

  /** A machine that has read part `p` after events `base`. */
  predicate At(limit: nat, base: seq<Event>, m: Machine, p: Part) {
    m.err == Ok && PartOk(limit, m, p) && m.log == base + PartEvents(m.st, p)
  }

  /** A byte, if it is accepted, carries the machine from `p` to `p'`. */
  predicate Reads(limit: nat, base: seq<Event>, m: Machine, p: Part, c: Byte, p': Part) {
    var s := Step(limit, m, c);
    s.err == Ok ==> At(limit, base, s, p') && PartText(s.st, p') == PartText(m.st, p) + [c]
  }

  lemma ReadFirst(limit: nat, base: seq<Event>, m: Machine, p: Part, c: Byte) returns (p': Part)
    requires At(limit, base, m, p) && m.st.SizeStart?
    ensures Reads(limit, base, m, p, c, p')
  {
    p' := Part(Line([c], []), []);
    if Unhex(c) != -1 {
      assert [] + [c] == [c];
      HexSnoc([], c);
      Counting(limit, 0);
    }
  }

  lemma ReadSize(limit: nat, base: seq<Event>, m: Machine, p: Part, c: Byte) returns (p': Part)
    requires At(limit, base, m, p) && m.st.Size?
    ensures Reads(limit, base, m, p, c, p')
  {
    var size := p.line.size;
    Counting(limit, |size|);
    if c == CR {
      p' := p;
      assert size + [] == size;
    } else if Unhex(c) == -1 {
      p' := p.(line := Line(size, [c]));
      assert |size + [c]| == |size| + 1;
    } else {
      p' := p.(line := Line(size + [c], []));
      HexSnoc(size, c);
    }
  }

  lemma ReadParameters(limit: nat, base: seq<Event>, m: Machine, p: Part, c: Byte) returns (p': Part)
    requires At(limit, base, m, p) && m.st.Parameters?
    ensures Reads(limit, base, m, p, c, p')
  {
    var size, ext := p.line.size, p.line.ext;
    Counting(limit, |size + ext|);
    if c == CR {
      p' := p;
    } else {
      p' := p.(line := Line(size, ext + [c]));
      assert size + (ext + [c]) == size + ext + [c];
      assert Extension(ext + [c]);
    }
  }

  lemma ReadLineEnd(limit: nat, base: seq<Event>, m: Machine, p: Part, c: Byte) returns (p': Part)
    requires At(limit, base, m, p) && m.st.SizeAlmostDone?
    ensures Reads(limit, base, m, p, c, p')
  {
    p' := p.(data := []);
    Counting(limit, |p.line.size + p.line.ext| + 1);
    if c == LF {
      assert p.line.size + p.line.ext + [CR] + [c] == LineText(p.line);
      assert LineText(p.line) + [] == LineText(p.line);
      assert [ChunkHeader(m.length)] + BodyBytes([]) == [ChunkHeader(m.length)];
    }
  }

  lemma ReadData(limit: nat, base: seq<Event>, m: Machine, p: Part, c: Byte) returns (p': Part)
    requires At(limit, base, m, p) && m.st.Data?
    ensures Reads(limit, base, m, p, c, p')
  {
    p' := p.(data := p.data + [c]);
    assert LineText(p.line) + p'.data == LineText(p.line) + p.data + [c];
    BodySnoc(p.data, [ChunkHeader(HexSize(p))], c);
    assert base + ([ChunkHeader(HexSize(p))] + BodyBytes(p.data) + [BodyByte(c)])
        == m.log + [BodyByte(c)];
  }

  lemma ReadDataEnd(limit: nat, base: seq<Event>, m: Machine, p: Part, c: Byte) returns (p': Part)
    requires At(limit, base, m, p) && m.st.DataAlmostDone?
    ensures Reads(limit, base, m, p, c, p')
  {
    p' := p;
  }

  /** The byte that completes a chunk. */
  lemma ReadChunkEnd(limit: nat, base: seq<Event>, m: Machine, p: Part, c: Byte)
    requires At(limit, base, m, p) && m.st.DataDone?
    ensures var s := Step(limit, m, c);
            var k := Chunk(p.line, p.data);
            s.err == Ok ==>
              && ChunkOk(limit, k) && PartText(m.st, p) + [c] == ChunkText(k)
              && At(limit, base + ChunkEvents(k), s, p) && s.st.SizeStart?
  {
    var k := Chunk(p.line, p.data);
    assert LineText(p.line) + p.data + [CR] + [LF] == ChunkText(k);
    assert base + ChunkEvents(k) + [] == m.log + [ChunkComplete];
  }

  // ---- accepted texts are coded texts ----

  ghost predicate Stands(limit: nat, base: seq<Event>, text: seq<Byte>, m: Machine, cs: seq<Chunk>, p: Part) {
    && ChunksOk(limit, cs)
    && text == Texts(cs) + PartText(m.st, p)
    && At(limit, base + Events(cs), m, p)
  }

  lemma StandsNext(limit: nat, base: seq<Event>, text: seq<Byte>, m: Machine, cs: seq<Chunk>, p: Part, c: Byte)
    returns (cs': seq<Chunk>, p': Part)
    requires Stands(limit, base, text, m, cs, p) && !Left(m.st)
    ensures var s := Step(limit, m, c); s.err == Ok ==> Stands(limit, base, text + [c], s, cs', p')
  {
    cs', p' := cs, p;
    var seen := base + Events(cs);
    match m.st {
      case SizeStart => p' := ReadFirst(limit, seen, m, p, c);
      case Size => p' := ReadSize(limit, seen, m, p, c);
      case Parameters => p' := ReadParameters(limit, seen, m, p, c);
      case SizeAlmostDone => p' := ReadLineEnd(limit, seen, m, p, c);
      case Data => p' := ReadData(limit, seen, m, p, c);
      case DataAlmostDone => p' := ReadDataEnd(limit, seen, m, p, c);
      case DataDone =>
        ReadChunkEnd(limit, seen, m, p, c);
        StandsChunk(limit, base, text, m, cs, p, c);
        cs' := cs + [Chunk(p.line, p.data)];
        return;
    }
    Assoc(Texts(cs), PartText(m.st, p), [c]);
  }

  lemma StandsChunk(limit: nat, base: seq<Event>, text: seq<Byte>, m: Machine, cs: seq<Chunk>, p: Part, c: Byte)
    requires Stands(limit, base, text, m, cs, p) && m.st.DataDone?
    ensures var s := Step(limit, m, c);
            s.err == Ok ==> Stands(limit, base, text + [c], s, cs + [Chunk(p.line, p.data)], p)
  {
    var s := Step(limit, m, c);
    var k := Chunk(p.line, p.data);
    ReadChunkEnd(limit, base + Events(cs), m, p, c);
    assert (cs + [k])[..|cs|] == cs;
    if s.err == Ok {
      assert Texts(cs) + PartText(m.st, p) + [c] == Texts(cs) + ChunkText(k);
      assert Texts(cs + [k]) + [] == Texts(cs) + ChunkText(k);
      assert base + Events(cs) + ChunkEvents(k) == base + Events(cs + [k]);
    }
  }

  /** The machine has not left the body before the last byte of a text. */
  predicate InBody(limit: nat, m: Machine, text: seq<Byte>) {
    text == [] || !Left(Feed(limit, m, text[..|text| - 1]).st)
  }

  lemma OkBefore(limit: nat, m: Machine, text: seq<Byte>)
    requires Feed(limit, m, text).err == Ok && InBody(limit, m, text) && text != []
    ensures var front := text[..|text| - 1];
            Feed(limit, m, front).err == Ok && InBody(limit, m, front) && !Left(Feed(limit, m, front).st)
  {
  }

  lemma StandsFresh(limit: nat, m: Machine)
    requires Fresh(m)
    ensures Stands(limit, m.log, [], m, [], Part(Line([], []), []))
  {
    assert m.log + Events([]) + [] == m.log;
  }

  /** One more byte of a text that is read from the start. */
  lemma StandsOn(limit: nat, m: Machine, front: seq<Byte>, c: Byte, cs: seq<Chunk>, p: Part)
    returns (cs': seq<Chunk>, p': Part)
    requires Stands(limit, m.log, front, Feed(limit, m, front), cs, p) && !Left(Feed(limit, m, front).st)
    requires Feed(limit, m, front + [c]).err == Ok
    ensures Stands(limit, m.log, front + [c], Feed(limit, m, front + [c]), cs', p')
  {
    FeedSnoc(limit, m, front, c);
    cs', p' := StandsNext(limit, m.log, front, Feed(limit, m, front), cs, p, c);
  }

  /** Whatever has been accepted is whole chunks and a part of one. */
  lemma {:induction false} Decompose(limit: nat, m: Machine, text: seq<Byte>) returns (cs: seq<Chunk>, p: Part)
    requires Fresh(m) && Feed(limit, m, text).err == Ok && InBody(limit, m, text)
    ensures Stands(limit, m.log, text, Feed(limit, m, text), cs, p)
    decreases |text|
  {
    if text == [] {
      cs, p := [], Part(Line([], []), []);
      StandsFresh(limit, m);
    } else {
      var n := |text| - 1;
      OkBefore(limit, m, text);
      cs, p := Decompose(limit, m, text[..n]);
      cs, p := StandsOn(limit, m, text[..n], text[n], cs, p);
      FrontLast(text);
    }
  }

  // ---- coded texts are accepted ----

  /** Two readings in a row. */
  lemma Then(limit: nat, m: Machine, a: seq<Byte>, m1: Machine, b: seq<Byte>, m2: Machine)
    requires Feed(limit, m, a) == m1 && Feed(limit, m1, b) == m2
    ensures Feed(limit, m, a + b) == m2
  {
    FeedAppend(limit, m, a, b);
  }

  lemma ThenByte(limit: nat, m: Machine, a: seq<Byte>, m1: Machine, c: Byte, m2: Machine)
    requires Feed(limit, m, a) == m1 && Step(limit, m1, c) == m2
    ensures Feed(limit, m, a + [c]) == m2
  {
    FeedSnoc(limit, m, a, c);
  }

  lemma {:induction false} FeedDigits(limit: nat, m: Machine, size: seq<Byte>)
    requires Fresh(m) && size != [] && IsHex(size) && HexValue(size) <= ABSENT - 16 && Fits(limit, |size|)
    ensures Feed(limit, m, size) == m.(st := Size, length := HexValue(size), nread := U32(|size|))
    decreases |size|
  {
    var n := |size| - 1;
    var front, c := size[..n], size[n];
    assert size == front + [c];
    assert IsHex(front);
    HexSnoc(front, c);
    FeedSnoc(limit, m, front, c);
    Counting(limit, n);
    if n > 0 {
      FeedDigits(limit, m, front);
    } else {
      assert front == [];
      assert Hex([]) == [];
    }
  }

  lemma StepExtension(limit: nat, m: Machine, n: nat, c: Byte)
    requires m.err == Ok && m.nread == U32(n) && Fits(limit, n + 1) && c != CR
    requires m.st.Parameters? || (m.st.Size? && (c == SEMICOLON || c == SP))
    ensures Step(limit, m, c) == m.(st := Parameters, nread := U32(n + 1))
  {
    Counting(limit, n);
  }

  lemma {:induction false} FeedExtension(limit: nat, m: Machine, n: nat, ext: seq<Byte>)
    requires m.st.Size? && m.err == Ok && m.nread == U32(n)
    requires ext != [] && Extension(ext) && Fits(limit, n + |ext|)
    ensures Feed(limit, m, ext) == m.(st := Parameters, nread := U32(n + |ext|))
    decreases |ext|
  {
    var k := |ext| - 1;
    var front := ext[..k];
    assert ext == front + [ext[k]];
    var m1 := if k == 0 then m else m.(st := Parameters, nread := U32(n + k));
    assert Feed(limit, m, front) == m1 by {
      if k > 0 {
        FeedExtension(limit, m, n, front);
      }
    }
    StepExtension(limit, m1, n + k, ext[k]);
    ThenByte(limit, m, front, m1, ext[k], m.(st := Parameters, nread := U32(n + |ext|)));
  }

  /** What a machine has become when a size line lacks its last `2 - k` bytes. */
  function InLine(m: Machine, l: Line, size: nat, k: nat): Machine {
    var n := |l.size + l.ext|;
    if k == 0 then m.(st := if l.ext == [] then Size else Parameters, length := size, nread := U32(n))
    else if k == 1 then m.(st := SizeAlmostDone, length := size, nread := U32(n + 1))
    else m.(st := if size == 0 then Trailers else Data, length := size, nread := 0, log := m.log + [ChunkHeader(size)])
  }

  lemma FeedSizes(limit: nat, m: Machine, l: Line, size: nat)
    requires Fresh(m) && LineOk(limit, l, size)
    ensures Feed(limit, m, l.size + l.ext) == InLine(m, l, size, 0)
  {
    FeedDigits(limit, m, l.size);
    var m1 := m.(st := Size, length := size, nread := U32(|l.size|));
    if l.ext == [] {
      assert l.size + l.ext == l.size;
    } else {
      FeedExtension(limit, m1, |l.size|, l.ext);
      Then(limit, m, l.size, m1, l.ext, InLine(m, l, size, 0));
    }
  }

  lemma StepLine(limit: nat, m: Machine, l: Line, size: nat)
    requires Fresh(m) && LineOk(limit, l, size)
    ensures Step(limit, InLine(m, l, size, 0), CR) == InLine(m, l, size, 1)
    ensures Step(limit, InLine(m, l, size, 1), LF) == InLine(m, l, size, 2)
  {
    var n := |l.size + l.ext|;
    Counting(limit, n);
    Counting(limit, n + 1);
  }

  lemma FeedLine(limit: nat, m: Machine, l: Line, size: nat)
    requires Fresh(m) && LineOk(limit, l, size)
    ensures Feed(limit, m, l.size + l.ext + [CR]) == InLine(m, l, size, 1)
    ensures Feed(limit, m, LineText(l)) == InLine(m, l, size, 2)
  {
    FeedSizes(limit, m, l, size);
    StepLine(limit, m, l, size);
    ThenByte(limit, m, l.size + l.ext, InLine(m, l, size, 0), CR, InLine(m, l, size, 1));
    ThenByte(limit, m, l.size + l.ext + [CR], InLine(m, l, size, 1), LF, InLine(m, l, size, 2));
    assert LineText(l) == l.size + l.ext + [CR] + [LF];
  }

  // From here on the reading is a parameter `feed` of which a few laws are
  // known, so that no proof looks into single steps.

  type Reading = (Machine, seq<Byte>) -> Machine

  ghost predicate AppendLaw(feed: Reading) {
    forall m, a, b {:trigger feed(m, a + b)} :: feed(m, a + b) == feed(feed(m, a), b)
  }

  ghost predicate LineLaw(limit: nat, feed: Reading) {
    forall m, l: Line, size {:trigger InLine(m, l, size, 2)} | Fresh(m) && LineOk(limit, l, size) ::
      && feed(m, l.size + l.ext + [CR]) == InLine(m, l, size, 1)
      && feed(m, LineText(l)) == InLine(m, l, size, 2)
  }

  ghost predicate BodyLaw(feed: Reading) {
    forall m: Machine, d: seq<Byte> {:trigger feed(m, d)} | m.st.Data? && m.err == Ok && |d| == m.length > 0 ::
      feed(m, d) == m.(length := 0, st := DataAlmostDone, log := m.log + BodyBytes(d))
  }

  ghost predicate EndLaw(feed: Reading) {
    forall m: Machine {:trigger feed(m, CRLF)} | m.st.DataAlmostDone? && m.err == Ok ::
      feed(m, CRLF) == m.(st := SizeStart, nread := 0, log := m.log + [ChunkComplete])
  }

  ghost predicate Laws(limit: nat, feed: Reading) {
    AppendLaw(feed) && LineLaw(limit, feed) && BodyLaw(feed) && EndLaw(feed)
  }

  lemma FeedEnd(limit: nat, m: Machine)
    requires m.st.DataAlmostDone? && m.err == Ok
    ensures Feed(limit, m, CRLF) == m.(st := SizeStart, nread := 0, log := m.log + [ChunkComplete])
  {
    FeedOne(limit, m, CR);
    FeedSnoc(limit, m, [CR], LF);
    assert CRLF == [CR] + [LF];
  }

  lemma FeedLaws(limit: nat)
    ensures Laws(limit, (m, d) => Feed(limit, m, d))
  {
    var feed: Reading := (m, d) => Feed(limit, m, d);
    forall m, a, b ensures feed(m, a + b) == feed(feed(m, a), b) {
      FeedAppend(limit, m, a, b);
    }
    forall m, l: Line, size | Fresh(m) && LineOk(limit, l, size)
      ensures feed(m, l.size + l.ext + [CR]) == InLine(m, l, size, 1)
      ensures feed(m, LineText(l)) == InLine(m, l, size, 2)
    {
      FeedLine(limit, m, l, size);
    }
    forall m: Machine, d: seq<Byte> | m.st.Data? && m.err == Ok && |d| == m.length > 0
      ensures feed(m, d) == m.(length := 0, st := DataAlmostDone, log := m.log + BodyBytes(d))
    {
      FeedBody(limit, m, d);
    }
    forall m: Machine | m.st.DataAlmostDone? && m.err == Ok
      ensures feed(m, CRLF) == m.(st := SizeStart, nread := 0, log := m.log + [ChunkComplete])
    {
      FeedEnd(limit, m);
    }
  }

  lemma ReadChunk(limit: nat, feed: Reading, m: Machine, c: Chunk)
    requires Laws(limit, feed) && Fresh(m) && ChunkOk(limit, c)
    ensures feed(m, ChunkText(c)) == m.(length := 0, log := m.log + ChunkEvents(c))
  {
    var m1 := InLine(m, c.line, |c.data|, 2);
    var m2 := feed(m1, c.data);
    assert feed(m, LineText(c.line) + c.data) == m2;
    assert feed(m, LineText(c.line) + c.data + CRLF) == feed(m2, CRLF);
    assert m.log + [ChunkHeader(|c.data|)] + BodyBytes(c.data) + [ChunkComplete] == m.log + ChunkEvents(c);
  }

  lemma Join(feed: Reading, m: Machine, a: seq<Byte>, m1: Machine, b: seq<Byte>)
    requires AppendLaw(feed) && feed(m, a) == m1
    ensures feed(m, a + b) == feed(m1, b)
  {
  }

  function AfterChunks(m: Machine, cs: seq<Chunk>): Machine {
    m.(length := if cs == [] then m.length else 0, log := m.log + Events(cs))
  }

  lemma AfterChunksSnoc(m: Machine, cs: seq<Chunk>)
    requires cs != []
    ensures var n := |cs| - 1;
            var m1 := AfterChunks(m, cs[..n]);
            AfterChunks(m, cs) == m1.(length := 0, log := m1.log + ChunkEvents(cs[n]))
  {
    var n := |cs| - 1;
    Assoc(m.log, Events(cs[..n]), ChunkEvents(cs[n]));
    var a, b := m.log + Events(cs), AfterChunks(m, cs[..n]).log + ChunkEvents(cs[n]);
    assert a == b;
    assert AfterChunks(m, cs) == m.(length := 0, log := a);
  }

  lemma {:induction false} ReadChunks(limit: nat, feed: Reading, m: Machine, cs: seq<Chunk>)
    requires Laws(limit, feed) && feed(m, []) == m && Fresh(m) && ChunksOk(limit, cs)
    ensures feed(m, Texts(cs)) == AfterChunks(m, cs)
    decreases |cs|
  {
    if cs == [] {
      assert m.log + [] == m.log;
    } else {
      var n := |cs| - 1;
      var m1 := AfterChunks(m, cs[..n]);
      ReadChunks(limit, feed, m, cs[..n]);
      ReadChunk(limit, feed, m1, cs[n]);
      AfterChunksSnoc(m, cs);
      Join(feed, m, Texts(cs[..n]), m1, ChunkText(cs[n]));
    }
  }

  lemma ReadBody(limit: nat, feed: Reading, m: Machine, cs: seq<Chunk>, last: Line)
    requires Laws(limit, feed) && feed(m, []) == m && Fresh(m) && ChunksOk(limit, cs) && LineOk(limit, last, 0)
    ensures feed(m, Texts(cs) + (last.size + last.ext + [CR])).st == SizeAlmostDone
    ensures feed(m, Texts(cs) + LineText(last))
            == m.(st := Trailers, length := 0, log := m.log + Events(cs) + [ChunkHeader(0)])
  {
    var m1 := AfterChunks(m, cs);
    ReadChunks(limit, feed, m, cs);
    assert InLine(m1, last, 0, 2).st.Trailers?;
    Join(feed, m, Texts(cs), m1, last.size + last.ext + [CR]);
    Join(feed, m, Texts(cs), m1, LineText(last));
  }

  // ---- both directions ----

  /** A chunked body: chunks with data, and a last line whose size is zero. */
  ghost predicate Coded(limit: nat, cs: seq<Chunk>, last: Line, text: seq<Byte>) {
    ChunksOk(limit, cs) && LineOk(limit, last, 0) && text == Texts(cs) + LineText(last)
  }

  /** The last byte of `text` takes the parser to the trailers. */
  predicate Accepts(limit: nat, m: Machine, text: seq<Byte>) {
    var f := Feed(limit, m, text);
    text != [] && f.err == Ok && f.st.Trailers? && InBody(limit, m, text)
  }

  lemma FeedCoded(limit: nat, m: Machine, cs: seq<Chunk>, last: Line)
    requires Fresh(m) && ChunksOk(limit, cs) && LineOk(limit, last, 0)
    ensures Feed(limit, m, Texts(cs) + (last.size + last.ext + [CR])).st == SizeAlmostDone
    ensures Feed(limit, m, Texts(cs) + LineText(last))
            == m.(st := Trailers, length := 0, log := m.log + Events(cs) + [ChunkHeader(0)])
  {
    FeedLaws(limit);
    ReadBody(limit, (m, d) => Feed(limit, m, d), m, cs, last);
  }

  /** Decoding a list of chunks reports their sizes and their data in order. */
  lemma DecodesChunks(limit: nat, m: Machine, cs: seq<Chunk>, last: Line, text: seq<Byte>)
    requires Fresh(m) && Coded(limit, cs, last, text)
    ensures Accepts(limit, m, text)
    ensures Feed(limit, m, text)
            == m.(st := Trailers, length := 0, log := m.log + Events(cs) + [ChunkHeader(0)])
  {
    FeedCoded(limit, m, cs, last);
    assert text[..|text| - 1] == Texts(cs) + (last.size + last.ext + [CR]);
  }

  /** The parser accepts the coded texts and no others. */
  lemma AcceptsExactly(limit: nat, m: Machine, text: seq<Byte>)
    requires Fresh(m)
    ensures Accepts(limit, m, text) <==> exists cs, last :: Coded(limit, cs, last, text)
  {
    if Accepts(limit, m, text) {
      var cs, p := Decompose(limit, m, text);
      assert Coded(limit, cs, p.line, text);
    }
    if exists cs, last :: Coded(limit, cs, last, text) {
      var cs, last :| Coded(limit, cs, last, text);
      DecodesChunks(limit, m, cs, last, text);
    }
  }

  // ---- the decoded body ----

  function BodyOf(log: seq<Event>): seq<Byte> {
    if log == [] then []
    else BodyOf(log[..|log| - 1]) + (if log[|log| - 1].BodyByte? then [log[|log| - 1].b] else [])
  }

  function Content(cs: seq<Chunk>): seq<Byte> {
    if cs == [] then [] else Content(cs[..|cs| - 1]) + cs[|cs| - 1].data
  }

  lemma {:induction false} BodyOfAppend(a: seq<Event>, b: seq<Event>)
    ensures BodyOf(a + b) == BodyOf(a) + BodyOf(b)
    decreases |b|
  {
    if b == [] {
      assert a + b == a;
    } else {
      var n := |b| - 1;
      assert (a + b)[..|a + b| - 1] == a + b[..n];
      BodyOfAppend(a, b[..n]);
    }
  }

  lemma {:induction false} BodyOfBytes(d: seq<Byte>)
    ensures BodyOf(BodyBytes(d)) == d
    decreases |d|
  {
    if d != [] {
      var n := |d| - 1;
      assert BodyBytes(d)[..n] == BodyBytes(d[..n]);
      BodyOfBytes(d[..n]);
    }
  }

  lemma ChunkBody(c: Chunk)
    ensures BodyOf(ChunkEvents(c)) == c.data
  {
    BodyOfAppend([ChunkHeader(|c.data|)] + BodyBytes(c.data), [ChunkComplete]);
    BodyOfAppend([ChunkHeader(|c.data|)], BodyBytes(c.data));
    BodyOfBytes(c.data);
    assert BodyOf([ChunkHeader(|c.data|)]) == [] && BodyOf([ChunkComplete]) == [];
  }

  /** The body bytes of a chunked message are its chunks' data, joined. */
  lemma {:induction false} ContentDecoded(cs: seq<Chunk>)
    ensures BodyOf(Events(cs)) == Content(cs)
    decreases |cs|
  {
    if cs != [] {
      var n := |cs| - 1;
      ContentDecoded(cs[..n]);
      BodyOfAppend(Events(cs[..n]), ChunkEvents(cs[n]));
      ChunkBody(cs[n]);
    }
  }
}
