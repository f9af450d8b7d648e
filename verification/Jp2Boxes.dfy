/**
 Finding the image size in a JPEG 2000 file: box search as in Annex I of
 ISO/IEC 15444-1, or the SIZ marker of a bare codestream.
 */
module Jp2Boxes {

  type byte = b: int | 0 <= b < 256

  type bytes = seq<byte>

  /** `Failed` stands for every error return. */
  datatype Answer = Failed | NotFound | Found(width: nat, height: nat)

  const IHDR: bytes := [0x69, 0x68, 0x64, 0x72]
  const JP2H: bytes := [0x6A, 0x70, 0x32, 0x68]
  const SIGNATURE: bytes := [0, 0, 0, 12, 0x6A, 0x50, 0x20, 0x20, 13, 10, 0x87, 10]
  const MAX_DEPTH := 4

  // ----- big-endian numbers ----------------------------------------------------------------

  function BigEndian(s: bytes): nat {
    if |s| == 0 then 0 else BigEndian(s[..|s| - 1]) * 256 + s[|s| - 1]
  }

  function Digits(n: nat, k: nat): (s: bytes)
    ensures |s| == k
    decreases k
  {
    if k == 0 then [] else Digits(n / 256, k - 1) + [n % 256]
  }

  function Power(k: nat): nat {
    if k == 0 then 1 else 256 * Power(k - 1)
  }

  lemma {:induction false} DigitsRoundTrip(n: nat, k: nat)
    requires n < Power(k)
    ensures BigEndian(Digits(n, k)) == n
    decreases k
  {
    if k > 0 {
      DigitsRoundTrip(n / 256, k - 1);
      assert Digits(n, k)[..k - 1] == Digits(n / 256, k - 1);
    }
  }

  /** The first byte weighs most. */
  lemma {:induction false} BigEndianConcat(a: bytes, b: bytes)
    ensures BigEndian(a + b) == BigEndian(a) * Power(|b|) + BigEndian(b)
    decreases |b|
  {
    if |b| == 0 {
      assert a + b == a;
    } else {
      var n := |b| - 1;
      BigEndianConcat(a, b[..n]);
      assert (a + b)[..|a| + n] == a + b[..n];
      assert BigEndian(a) * Power(n + 1) == 256 * (BigEndian(a) * Power(n));
    }
  }

  lemma Powers()
    ensures Power(2) == 0x1_0000 && Power(4) == 0x1_0000_0000 && Power(8) == 0x1_0000_0000_0000_0000
  {
    assert Power(5) == 256 * Power(4);
    assert Power(6) == 256 * Power(5);
    assert Power(7) == 256 * Power(6);
  }

  // ----- dimensions ------------------------------------------------------------------------------

  /** `maxInt` is the platform's largest int. */
  function BoundedDimensions(xSize: nat, ySize: nat, xOrigin: nat, yOrigin: nat, maxInt: nat): (a: Answer)
    ensures a.Found? <==> 0 < xSize - xOrigin <= maxInt && 0 < ySize - yOrigin <= maxInt
    ensures a.Found? ==> a.width + xOrigin == xSize && a.height + yOrigin == ySize
    ensures !a.Found? ==> a == Failed
  {
    if xSize <= xOrigin || ySize <= yOrigin then Failed
    else if xSize - xOrigin > maxInt || ySize - yOrigin > maxInt then Failed
    else Found(xSize - xOrigin, ySize - yOrigin)
  }

  /** The payload of an image header: height first, then width. */
  function HeaderDimensions(payload: bytes, maxInt: nat): (a: Answer)
    ensures a != NotFound
  {
    if |payload| < 14 then Failed
    else BoundedDimensions(BigEndian(payload[4..8]), BigEndian(payload[..4]), 0, 0, maxInt)
  }

  // ----- the search, by recursion on what is left of the data ---------------------------------------

  /** Header length and total length of the box at the start of `data`; both zero when they do not fit. */
  function BoxExtent(data: bytes): (e: (nat, nat))
    ensures e == (0, 0) || (8 <= e.0 <= e.1 <= |data|)
  {
    if |data| < 8 then (0, 0) else
    var n := BigEndian(data[..4]);
    if n == 1 && |data| < 16 then (0, 0) else
    var header, length := if n == 1 then 16 else 8, if n == 1 then BigEndian(data[8..16]) else if n == 0 then |data| else n;
    if length < header || length > |data| then (0, 0) else (header, length)
  }

  function Scan(data: bytes, depth: nat, maxInt: nat): Answer
    decreases |data|, 0
  {
    if |data| == 0 then NotFound else
    var (header, length) := BoxExtent(data);
    if length == 0 then Failed else
    var kind, payload := data[4..8], data[header..length];
    if kind == IHDR then HeaderDimensions(payload, maxInt)
    else if kind == JP2H then
      var inner := Find(payload, depth + 1, maxInt);
      if inner != NotFound then inner else Scan(data[length..], depth, maxInt)
    else Scan(data[length..], depth, maxInt)
  }

  function Find(data: bytes, depth: nat, maxInt: nat): Answer
    decreases |data|, 1
  {
    if depth > MAX_DEPTH then Failed else Scan(data, depth, maxInt)
  }

  /** The lengths of the box at `offset`; both zero when they do not fit. */
  method ReadExtent(data: bytes, offset: nat) returns (headerLength: nat, boxLength: nat)
    requires offset < |data|
    ensures (headerLength, boxLength) == BoxExtent(data[offset..])
  {
    ghost var rest := data[offset..];
    if |data| - offset < 8 { return 0, 0; }
    assert rest[..4] == data[offset..offset + 4];
    boxLength := BigEndian(data[offset..offset + 4]);
    headerLength := 8;
    if boxLength == 1 {
      if |data| - offset < 16 { return 0, 0; }
      assert rest[8..16] == data[offset + 8..offset + 16];
      boxLength := BigEndian(data[offset + 8..offset + 16]);
      headerLength := 16;
    } else if boxLength == 0 {
      boxLength := |data| - offset;
    }
    if boxLength < headerLength || boxLength > |data| - offset { return 0, 0; }
  }

  lemma ScanAt(data: bytes, offset: nat, header: nat, length: nat, depth: nat, maxInt: nat)
    requires offset < |data| && (header, length) == BoxExtent(data[offset..]) && length > 0
    ensures offset + length <= |data|
    ensures
      var kind, payload := data[offset + 4..offset + 8], data[offset + header..offset + length];
      Scan(data[offset..], depth, maxInt) ==
        if kind == IHDR then HeaderDimensions(payload, maxInt)
        else if kind == JP2H && Find(payload, depth + 1, maxInt) != NotFound then Find(payload, depth + 1, maxInt)
        else Scan(data[offset + length..], depth, maxInt)
  {
    var rest := data[offset..];
    assert rest[4..8] == data[offset + 4..offset + 8] && rest[header..length] == data[offset + header..offset + length];
    assert rest[length..] == data[offset + length..];
  }

  /** The loop: an offset into one slice, and recursion into jp2h payloads. */
  method FindImageHeader(data: bytes, depth: nat, maxInt: nat) returns (a: Answer)
    ensures a == Find(data, depth, maxInt)
    decreases |data|
  {
    if depth > MAX_DEPTH { return Failed; }
    var offset := 0;
    assert data[0..] == data;
    while offset < |data|
      invariant 0 <= offset <= |data|
      invariant Scan(data[offset..], depth, maxInt) == Scan(data, depth, maxInt)
    {
      var headerLength, boxLength := ReadExtent(data, offset);
      if boxLength == 0 { return Failed; }
      ScanAt(data, offset, headerLength, boxLength, depth, maxInt);
      var boxType := data[offset + 4..offset + 8];
      var payload := data[offset + headerLength..offset + boxLength];
      if boxType == IHDR {
        return HeaderDimensions(payload, maxInt);
      } else if boxType == JP2H {
        a := FindImageHeader(payload, depth + 1, maxInt);
        if a != NotFound { return; }
      }
      offset := offset + boxLength;
    }
    a := NotFound;
  }

  // ----- box forests -----------------------------------------------------------------------------------

  /** How a box states its length. */
  datatype Form = Short | Extended | ToEnd

  /** A list of boxes; a super box is a jp2h with boxes inside. */
  datatype Boxes =
    | Nil
    | Leaf(form: Form, kind: bytes, payload: bytes, rest: Boxes)
    | Super(form: Form, children: Boxes, rest: Boxes)

  function Header(form: Form, kind: bytes, n: nat): bytes {
    match form
    case Short => Digits(8 + n, 4) + kind
    case Extended => Digits(1, 4) + kind + Digits(16 + n, 8)
    case ToEnd => Digits(0, 4) + kind
  }

  function Encode(bs: Boxes): bytes {
    match bs
    case Nil => []
    case Leaf(form, kind, payload, rest) => Header(form, kind, |payload|) + payload + Encode(rest)
    case Super(form, children, rest) => Header(form, JP2H, |Encode(children)|) + Encode(children) + Encode(rest)
  }

  /** The length fits the form, and only the last box of a list may run to the end. */
  predicate LengthFits(form: Form, n: nat, rest: Boxes) {
    match form
    case Short => 8 + n < Power(4)
    case Extended => 16 + n < Power(8)
    case ToEnd => rest.Nil?
  }

  predicate WellFormed(bs: Boxes) {
    match bs
    case Nil => true
    case Leaf(form, kind, payload, rest) =>
      |kind| == 4 && kind != JP2H && LengthFits(form, |payload|, rest) && WellFormed(rest)
    case Super(form, children, rest) =>
      LengthFits(form, |Encode(children)|, rest) && WellFormed(children) && WellFormed(rest)
  }

  /** The payloads of the image headers, in preorder, descending only into jp2h. */
  function ImageHeaders(bs: Boxes): seq<bytes> {
    match bs
    case Nil => []
    case Leaf(_, kind, payload, rest) => (if kind == IHDR then [payload] else []) + ImageHeaders(rest)
    case Super(_, children, rest) => ImageHeaders(children) + ImageHeaders(rest)
  }

  function Nesting(bs: Boxes): nat {
    match bs
    case Nil => 0
    case Leaf(_, _, _, rest) => Nesting(rest)
    case Super(_, children, rest) =>
      if 1 + Nesting(children) > Nesting(rest) then 1 + Nesting(children) else Nesting(rest)
  }

  lemma ShortFields(field: bytes, kind: bytes, more: bytes)
    requires |field| == 4 && |kind| == 4
    ensures var data := field + kind + more; data[..4] == field && data[4..8] == kind
  {
  }

  lemma LongFields(field: bytes, kind: bytes, length: bytes, more: bytes)
    requires |field| == 4 && |kind| == 4 && |length| == 8
    ensures var data := field + kind + length + more; data[..4] == field && data[4..8] == kind && data[8..16] == length
  {
  }

  /** The header's own bytes, whatever follows it. */
  lemma HeaderFields(form: Form, kind: bytes, n: nat, more: bytes)
    requires |kind| == 4
    requires form == Short ==> 8 + n < Power(4)
    requires form == Extended ==> 16 + n < Power(8)
    ensures
      var data := Header(form, kind, n) + more;
      && |Header(form, kind, n)| == (if form == Extended then 16 else 8)
      && BigEndian(data[..4]) == (match form case Short => 8 + n case Extended => 1 case ToEnd => 0)
      && data[4..8] == kind && (form == Extended ==> BigEndian(data[8..16]) == 16 + n)
  {
    match form
    case Short =>
      ShortFields(Digits(8 + n, 4), kind, more);
      DigitsRoundTrip(8 + n, 4);
    case ToEnd =>
      ShortFields(Digits(0, 4), kind, more);
      Powers();
      DigitsRoundTrip(0, 4);
    case Extended =>
      LongFields(Digits(1, 4), kind, Digits(16 + n, 8), more);
      Powers();
      DigitsRoundTrip(1, 4);
      DigitsRoundTrip(16 + n, 8);
  }

  lemma HeaderExtent(form: Form, kind: bytes, n: nat, payload: bytes, tail: bytes)
    requires |kind| == 4 && |payload| == n
    requires form == Short ==> 8 + n < Power(4)
    requires form == Extended ==> 16 + n < Power(8)
    requires form == ToEnd ==> tail == []
    ensures
      var data := Header(form, kind, n) + payload + tail;
      var h := |Header(form, kind, n)|;
      && BoxExtent(data) == (h, h + n) && data[4..8] == kind
      && data[h..h + n] == payload && data[h + n..] == tail
  {
    HeaderFields(form, kind, n, payload + tail);
    Sliced(Header(form, kind, n), payload, tail);
  }

  lemma Sliced(a: bytes, b: bytes, c: bytes)
    ensures
      var data := a + b + c;
      data == a + (b + c) && |data| == |a| + |b| + |c| && data[|a|..|a| + |b|] == b && data[|a| + |b|..] == c
  {
  }

  lemma ScanBox(form: Form, kind: bytes, payload: bytes, tail: bytes, depth: nat, maxInt: nat)
    requires |kind| == 4
    requires form == Short ==> 8 + |payload| < Power(4)
    requires form == Extended ==> 16 + |payload| < Power(8)
    requires form == ToEnd ==> tail == []
    ensures
      Scan(Header(form, kind, |payload|) + payload + tail, depth, maxInt) ==
        if kind == IHDR then HeaderDimensions(payload, maxInt)
        else if kind == JP2H && Find(payload, depth + 1, maxInt) != NotFound then Find(payload, depth + 1, maxInt)
        else Scan(tail, depth, maxInt)
  {
    HeaderExtent(form, kind, |payload|, payload, tail);
  }

  /** What the search sees: an image header, or a jp2h below the depth bound. */
  datatype Visit = Header(payload: bytes) | TooDeep

  /** In preorder, what a search that starts at `depth` meets. */
  function Visits(bs: Boxes, depth: nat): seq<Visit> {
    match bs
    case Nil => []
    case Leaf(_, kind, payload, rest) => (if kind == IHDR then [Visit.Header(payload)] else []) + Visits(rest, depth)
    case Super(_, children, rest) =>
      (if depth + 1 > MAX_DEPTH then [TooDeep] else Visits(children, depth + 1)) + Visits(rest, depth)
  }

  function FirstAnswer(vs: seq<Visit>, maxInt: nat): Answer {
    if |vs| == 0 then NotFound
    else if vs[0].TooDeep? then Failed
    else HeaderDimensions(vs[0].payload, maxInt)
  }

  lemma FirstOfConcat(vs: seq<Visit>, ws: seq<Visit>, maxInt: nat)
    ensures FirstAnswer(vs + ws, maxInt) == if vs == [] then FirstAnswer(ws, maxInt) else FirstAnswer(vs, maxInt)
    ensures FirstAnswer(vs, maxInt) == NotFound <==> vs == []
  {
    if vs == [] { assert vs + ws == ws; }
  }

  /** On every encoding of a well-formed forest the answer is decided by the first thing met in preorder. */
  lemma {:induction false} SearchFollowsTree(bs: Boxes, depth: nat, maxInt: nat)
    requires WellFormed(bs)
    ensures Scan(Encode(bs), depth, maxInt) == FirstAnswer(Visits(bs, depth), maxInt)
  {
    match bs
    case Nil =>
    case Leaf(form, kind, payload, rest) =>
      ScanBox(form, kind, payload, Encode(rest), depth, maxInt);
      SearchFollowsTree(rest, depth, maxInt);
      FirstOfConcat(if kind == IHDR then [Visit.Header(payload)] else [], Visits(rest, depth), maxInt);
    case Super(form, children, rest) =>
      SearchFollowsTree(children, depth + 1, maxInt);
      SearchFollowsTree(rest, depth, maxInt);
      var inner := if depth + 1 > MAX_DEPTH then [TooDeep] else Visits(children, depth + 1);
      SuperFollowsTree(form, Encode(children), Encode(rest), inner, Visits(rest, depth), depth, maxInt);
  }

  /** A jp2h box whose payload and whose successors are already understood. */
  lemma SuperFollowsTree(form: Form, inner: bytes, tail: bytes, vs: seq<Visit>, ws: seq<Visit>, depth: nat, maxInt: nat)
    requires form == Short ==> 8 + |inner| < Power(4)
    requires form == Extended ==> 16 + |inner| < Power(8)
    requires form == ToEnd ==> tail == []
    requires Find(inner, depth + 1, maxInt) == FirstAnswer(vs, maxInt) && Scan(tail, depth, maxInt) == FirstAnswer(ws, maxInt)
    ensures Scan(Header(form, JP2H, |inner|) + inner + tail, depth, maxInt) == FirstAnswer(vs + ws, maxInt)
  {
    ScanBox(form, JP2H, inner, tail, depth, maxInt);
    FirstOfConcat(vs, ws, maxInt);
  }

  lemma {:induction false} ShallowVisits(bs: Boxes, depth: nat)
    requires depth + Nesting(bs) <= MAX_DEPTH
    ensures |Visits(bs, depth)| == |ImageHeaders(bs)|
    ensures forall i :: 0 <= i < |ImageHeaders(bs)| ==> Visits(bs, depth)[i] == Visit.Header(ImageHeaders(bs)[i])
  {
    match bs
    case Nil =>
    case Leaf(_, _, _, rest) => ShallowVisits(rest, depth);
    case Super(_, children, rest) =>
      ShallowVisits(children, depth + 1);
      ShallowVisits(rest, depth);
  }

  /** Within the depth bound: the dimensions of the first image header in preorder, or not found. */
  lemma FirstHeaderWins(bs: Boxes, depth: nat, maxInt: nat)
    requires WellFormed(bs) && depth + Nesting(bs) <= MAX_DEPTH
    ensures Find(Encode(bs), depth, maxInt)
         == if ImageHeaders(bs) == [] then NotFound else HeaderDimensions(ImageHeaders(bs)[0], maxInt)
  {
    SearchFollowsTree(bs, depth, maxInt);
    ShallowVisits(bs, depth);
  }

  /** An image header inside `k` jp2h boxes. */
  function Wrapped(k: nat, payload: bytes): Boxes {
    if k == 0 then Leaf(ToEnd, IHDR, payload, Nil) else Super(ToEnd, Wrapped(k - 1, payload), Nil)
  }

  lemma {:induction false} WrappedVisits(k: nat, payload: bytes, depth: nat)
    requires depth <= 4
    ensures WellFormed(Wrapped(k, payload))
    ensures Visits(Wrapped(k, payload), depth) == if depth + k <= 4 then [Visit.Header(payload)] else [TooDeep]
    decreases k
  {
    if k > 0 {
      WrappedVisits(k - 1, payload, if depth < 4 then depth + 1 else 4);
    }
  }

  /** An image header is reached through four jp2h boxes and no more. */
  lemma DepthExactly(k: nat, payload: bytes, maxInt: nat)
    ensures Find(Encode(Wrapped(k, payload)), 0, maxInt) == if k <= 4 then HeaderDimensions(payload, maxInt) else Failed
  {
    WrappedVisits(k, payload, 0);
    SearchFollowsTree(Wrapped(k, payload), 0, maxInt);
  }

  // ----- the entry point ---------------------------------------------------------------------------------

  function CodestreamDimensions(data: bytes, maxInt: nat): Answer {
    if |data| < 24 || data[2] != 0xFF || data[3] != 0x51 then Failed else
    var segment := BigEndian(data[4..6]);
    if segment < 38 || 4 + segment > |data| then Failed
    else BoundedDimensions(BigEndian(data[8..12]), BigEndian(data[12..16]), BigEndian(data[16..20]), BigEndian(data[20..24]), maxInt)
  }

  function Dimensions(data: bytes, maxInt: nat): Answer {
    if |data| >= 2 && data[0] == 0xFF && data[1] == 0x4F then CodestreamDimensions(data, maxInt)
    else if |data| < 12 || data[..12] != SIGNATURE then Failed
    else
      var a := Find(data[12..], 0, maxInt);
      if a == NotFound then Failed else a
  }

  /** A SIZ segment right after SOC; `more` is the rest of the segment and of the file. */
  function Codestream(segment: nat, capabilities: bytes, x: nat, y: nat, x0: nat, y0: nat, more: bytes): bytes {
    [0xFF, 0x4F, 0xFF, 0x51] + Digits(segment, 2) + capabilities + Digits(x, 4) + Digits(y, 4) + Digits(x0, 4) + Digits(y0, 4) + more
  }

  lemma CodestreamFields(segment: nat, capabilities: bytes, x: nat, y: nat, x0: nat, y0: nat, more: bytes)
    requires |capabilities| == 2
    ensures
      var data := Codestream(segment, capabilities, x, y, x0, y0, more);
      && |data| == 24 + |more| && data[..4] == [0xFF, 0x4F, 0xFF, 0x51]
      && data[4..6] == Digits(segment, 2) && data[8..12] == Digits(x, 4) && data[12..16] == Digits(y, 4)
      && data[16..20] == Digits(x0, 4) && data[20..24] == Digits(y0, 4)
  {
    Fields([0xFF, 0x4F, 0xFF, 0x51], Digits(segment, 2), capabilities, Digits(x, 4), Digits(y, 4), Digits(x0, 4), Digits(y0, 4), more);
  }

  lemma Fields(a: bytes, b: bytes, c: bytes, d: bytes, e: bytes, f: bytes, g: bytes, more: bytes)
    requires |a| == 4 && |b| == 2 && |c| == 2 && |d| == 4 && |e| == 4 && |f| == 4 && |g| == 4
    ensures
      var data := a + b + c + d + e + f + g + more;
      && data[..4] == a && data[4..6] == b && data[8..12] == d && data[12..16] == e && data[16..20] == f && data[20..24] == g
  {
  }

  lemma CodestreamRoundTrip(segment: nat, capabilities: bytes, x: nat, y: nat, x0: nat, y0: nat, more: bytes, maxInt: nat)
    requires |capabilities| == 2 && 38 <= segment < Power(2) && segment <= 20 + |more|
    requires x < Power(4) && y < Power(4) && x0 < Power(4) && y0 < Power(4)
    ensures Dimensions(Codestream(segment, capabilities, x, y, x0, y0, more), maxInt) == BoundedDimensions(x, y, x0, y0, maxInt)
  {
    var data := Codestream(segment, capabilities, x, y, x0, y0, more);
    CodestreamFields(segment, capabilities, x, y, x0, y0, more);
    assert data[..4][0] == data[0] && data[..4][1] == data[1] && data[..4][2] == data[2] && data[..4][3] == data[3];
    assert BigEndian(data[4..6]) == segment by { DigitsRoundTrip(segment, 2); }
    assert BigEndian(data[8..12]) == x by { DigitsRoundTrip(x, 4); }
    assert BigEndian(data[12..16]) == y by { DigitsRoundTrip(y, 4); }
    assert BigEndian(data[16..20]) == x0 by { DigitsRoundTrip(x0, 4); }
    assert BigEndian(data[20..24]) == y0 by { DigitsRoundTrip(y0, 4); }
  }

  /** An image header holds the height before the width, whatever follows them. */
  lemma ImageHeaderRoundTrip(width: nat, height: nat, rest: bytes, maxInt: nat)
    requires width < Power(4) && height < Power(4) && |rest| >= 6
    ensures HeaderDimensions(Digits(height, 4) + Digits(width, 4) + rest, maxInt)
         == if 0 < width <= maxInt && 0 < height <= maxInt then Found(width, height) else Failed
  {
    var payload := Digits(height, 4) + Digits(width, 4) + rest;
    assert payload[..4] == Digits(height, 4) && payload[4..8] == Digits(width, 4);
    DigitsRoundTrip(height, 4);
    DigitsRoundTrip(width, 4);
  }

  /** A JP2 file of well-formed boxes, nested no deeper than allowed. */
  lemma FileRoundTrip(bs: Boxes, maxInt: nat)
    requires WellFormed(bs) && Nesting(bs) <= MAX_DEPTH
    ensures Dimensions(SIGNATURE + Encode(bs), maxInt)
         == if ImageHeaders(bs) == [] then Failed else HeaderDimensions(ImageHeaders(bs)[0], maxInt)
  {
    var data := SIGNATURE + Encode(bs);
    assert data[..12] == SIGNATURE && data[12..] == Encode(bs);
    FirstHeaderWins(bs, 0, maxInt);
  }

  // ----- what is refused ----------------------------------------------------------------------------------

  /** The first box does not fit: no room for its header, or a length shorter than the header or longer than the data. */
  predicate Malformed(data: bytes) {
    || |data| < 8
    || (var n := BigEndian(data[..4]);
        || 1 < n < 8 || n > |data|
        || (n == 1 && (|data| < 16 || BigEndian(data[8..16]) < 16 || BigEndian(data[8..16]) > |data|)))
  }

  /** A search that meets a malformed box fails. */
  lemma MalformedFails(data: bytes, depth: nat, maxInt: nat)
    ensures BoxExtent(data) == (0, 0) <==> Malformed(data)
    ensures data != [] && Malformed(data) ==> Scan(data, depth, maxInt) == Failed
  {
  }

  /** No box of the list itself runs to the end. */
  predicate NoneToEnd(bs: Boxes) {
    match bs
    case Nil => true
    case Leaf(form, _, _, rest) => form != ToEnd && NoneToEnd(rest)
    case Super(form, _, rest) => form != ToEnd && NoneToEnd(rest)
  }

  lemma Regroup(a: bytes, b: bytes, c: bytes, d: bytes)
    ensures a + b + c + d == a + b + (c + d)
  {
  }

  /** What is met decides, and without it what comes after. */
  function Decided(vs: seq<Visit>, after: Answer, maxInt: nat): Answer {
    if vs == [] then after else FirstAnswer(vs, maxInt)
  }

  lemma DecidedConcat(vs: seq<Visit>, ws: seq<Visit>, after: Answer, maxInt: nat)
    ensures Decided(vs + ws, after, maxInt) == Decided(vs, Decided(ws, after, maxInt), maxInt)
  {
    if vs == [] { assert vs + ws == ws; }
  }

  /** A box whose inside and whose successors are already understood. */
  lemma BoxGoesOn(form: Form, kind: bytes, payload: bytes, vs: seq<Visit>, next: bytes, ws: seq<Visit>, tail: bytes, after: Answer, depth: nat, maxInt: nat)
    requires form != ToEnd && |kind| == 4
    requires form == Short ==> 8 + |payload| < Power(4)
    requires form == Extended ==> 16 + |payload| < Power(8)
    requires kind == IHDR ==> vs == [Visit.Header(payload)]
    requires kind == JP2H ==> Find(payload, depth + 1, maxInt) == FirstAnswer(vs, maxInt)
    requires kind != IHDR && kind != JP2H ==> vs == []
    requires Scan(next + tail, depth, maxInt) == Decided(ws, after, maxInt)
    ensures Scan(Header(form, kind, |payload|) + payload + next + tail, depth, maxInt) == Decided(vs + ws, after, maxInt)
  {
    Regroup(Header(form, kind, |payload|), payload, next, tail);
    ScanBox(form, kind, payload, next + tail, depth, maxInt);
    FirstOfConcat(vs, ws, maxInt);
    DecidedConcat(vs, ws, after, maxInt);
  }

  /** Bytes after a list of boxes matter exactly when the search meets nothing in the list. */
  lemma {:induction false} SearchGoesOn(bs: Boxes, tail: bytes, depth: nat, maxInt: nat)
    requires WellFormed(bs) && NoneToEnd(bs)
    ensures Scan(Encode(bs) + tail, depth, maxInt) == Decided(Visits(bs, depth), Scan(tail, depth, maxInt), maxInt)
    decreases bs
  {
    var after := Scan(tail, depth, maxInt);
    match bs
    case Nil => assert [] + tail == tail;
    case Leaf(form, kind, payload, rest) =>
      SearchGoesOn(rest, tail, depth, maxInt);
      var vs := if kind == IHDR then [Visit.Header(payload)] else [];
      BoxGoesOn(form, kind, payload, vs, Encode(rest), Visits(rest, depth), tail, after, depth, maxInt);
    case Super(form, children, rest) =>
      SearchGoesOn(rest, tail, depth, maxInt);
      SearchFollowsTree(children, depth + 1, maxInt);
      var vs := if depth + 1 > MAX_DEPTH then [TooDeep] else Visits(children, depth + 1);
      BoxGoesOn(form, JP2H, Encode(children), vs, Encode(rest), Visits(rest, depth), tail, after, depth, maxInt);
  }

  predicate StartsCodestream(data: bytes) {
    |data| >= 2 && data[..2] == [0xFF, 0x4F]
  }

  /** An image header has at least 14 bytes and names a proper size. */
  lemma ImageHeaderExactly(payload: bytes, maxInt: nat)
    ensures HeaderDimensions(payload, maxInt).Found? <==>
      |payload| >= 14 && 0 < BigEndian(payload[..4]) <= maxInt && 0 < BigEndian(payload[4..8]) <= maxInt
    ensures HeaderDimensions(payload, maxInt).Found? ==>
      HeaderDimensions(payload, maxInt) == Found(BigEndian(payload[4..8]), BigEndian(payload[..4]))
  {
  }

  /** Anything that is neither a codestream nor a signed file is refused. */
  lemma OtherFilesFail(data: bytes, maxInt: nat)
    requires !StartsCodestream(data) && !(SIGNATURE <= data)
    ensures Dimensions(data, maxInt) == Failed
  {
    if |data| >= 2 { assert data[..2] == [data[0], data[1]]; }
  }

  /** The size of a codestream is found exactly when its SIZ segment comes first, is complete and spans a proper area. */
  lemma CodestreamExactly(data: bytes, maxInt: nat)
    requires StartsCodestream(data)
    ensures Dimensions(data, maxInt) != NotFound
    ensures Dimensions(data, maxInt).Found? <==>
      && |data| >= 24 && data[2..4] == [0xFF, 0x51] && 38 <= BigEndian(data[4..6]) <= |data| - 4
      && 0 < BigEndian(data[8..12]) - BigEndian(data[16..20]) <= maxInt && 0 < BigEndian(data[12..16]) - BigEndian(data[20..24]) <= maxInt
    ensures Dimensions(data, maxInt).Found? ==>
      && Dimensions(data, maxInt).width == BigEndian(data[8..12]) - BigEndian(data[16..20])
      && Dimensions(data, maxInt).height == BigEndian(data[12..16]) - BigEndian(data[20..24])
  {
    assert data[0] == data[..2][0] && data[1] == data[..2][1];
    if |data| >= 4 { assert data[2..4] == [data[2], data[3]]; }
  }
}
