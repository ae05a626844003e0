/**
 * Model of Infrared/src/ppm_io.c: the header tokenizer `read_token`, the
 * binary PPM (P6) reader `read_ppm` and the binary PGM (P5) writer
 * `write_pgm`.
 *
 * The input file is a byte sequence `s` and the stream position a cursor
 * into it: `fgetc` returns `s[p]` and advances, or returns EOF at `|s|`;
 * `ungetc` of the byte just read steps the cursor back by one. The output
 * file is the byte sequence the writer appends.
 */
module PpmIo {
  import opened Bytes
  import opened Decimal
  import opened Strided

  /** The value `fgetc` returns at end of file. */
  const EOF: int := -1

  /** `char tok[64]` in read_ppm: a token holds at most 63 bytes and a NUL. */
  const TokenBufferSize: int := 64

  const MagicP6: seq<byte> := [80, 54]
  const MagicP5: seq<byte> := [80, 53]

  /** The four bytes read_token skips between tokens and stops a token at. */
  predicate IsBlank(c: int) {
    c == SP || c == LF || c == CR || c == TAB
  }

  /** A byte that read_token stores in a token. */
  predicate IsTokenByte(b: byte) {
    !IsBlank(b) && b != HASH
  }

  predicate AllTokenBytes(t: seq<byte>) {
    forall i :: 0 <= i < |t| ==> IsTokenByte(t[i])
  }

  // ---------------------------------------------------------------------
  // Stream primitives

  /** `fgetc`: the byte under the cursor and the cursor after it, or EOF. */
  method Fgetc(s: seq<byte>, p: nat) returns (c: int, p': nat)
    requires p <= |s|
    ensures p < |s| ==> c == s[p] && p' == p + 1
    ensures p == |s| ==> c == EOF && p' == p
  {
    if p < |s| {
      c, p' := s[p], p + 1;
    } else {
      c, p' := EOF, p;
    }
  }

  /** `ungetc(c)` of the byte just read: the cursor steps back; EOF is not pushed back. */
  method Ungetc(s: seq<byte>, c: int, p: nat) returns (p': nat)
    requires c == EOF || (0 < p <= |s| && c == s[p - 1])
    ensures c == EOF ==> p' == p
    ensures c != EOF ==> p' == p - 1 && s[p'] == c
  {
    p' := if c == EOF then p else p - 1;
  }

  // ---------------------------------------------------------------------
  // read_token, specified

  /** Index of the first line feed at or after `p`, or `|s|` when there is none. */
  function LineEnd(s: seq<byte>, p: nat): (r: nat)
    requires p <= |s|
    ensures p <= r <= |s|
    ensures r < |s| ==> s[r] == LF
    ensures forall k :: p <= k < r ==> s[k] != LF
    decreases |s| - p
  {
    if p == |s| || s[p] == LF then p else LineEnd(s, p + 1)
  }

  /** Cursor after the rest of a comment line that continues at `p`: past its line feed, or at EOF. */
  function SkipLine(s: seq<byte>, p: nat): (r: nat)
    requires p <= |s|
    ensures p <= r <= |s|
    ensures r == |s| || (p < r && s[r - 1] == LF)
    ensures forall k :: p <= k < r - 1 ==> s[k] != LF
  {
    var e := LineEnd(s, p);
    if e == |s| then |s| else e + 1
  }

  /**
   * Where the skip loop of read_token stops, starting at `p`: the index of
   * the first byte of the next token, or `|s|` when none is left. Blanks are
   * skipped one at a time, a `#` skips the rest of its line.
   */
  function TokenStart(s: seq<byte>, p: nat): (r: nat)
    requires p <= |s|
    ensures p <= r <= |s|
    ensures r < |s| ==> IsTokenByte(s[r])
    decreases |s| - p
  {
    if p == |s| then p
    else if IsBlank(s[p]) then TokenStart(s, p + 1)
    else if s[p] == HASH then TokenStart(s, SkipLine(s, p + 1))
    else p
  }

  /** Where the collect loop stops: the first index from `i` that is the buffer limit, EOF or not a token byte. */
  function CollectEnd(s: seq<byte>, i: nat, limit: nat): (e: nat)
    requires i <= |s| && i <= limit
    ensures i <= e <= |s| && e <= limit
    ensures forall k :: i <= k < e ==> IsTokenByte(s[k])
    ensures e == limit || e == |s| || !IsTokenByte(s[e])
    decreases |s| - i
  {
    if i == limit || i == |s| || !IsTokenByte(s[i]) then i else CollectEnd(s, i + 1, limit)
  }

  /** One step of the skip loop, unfolded. */
  lemma TokenStartStep(s: seq<byte>, p: nat)
    requires p <= |s|
    ensures p == |s| ==> TokenStart(s, p) == |s|
    ensures p < |s| && IsBlank(s[p]) ==> TokenStart(s, p) == TokenStart(s, p + 1)
    ensures p < |s| && s[p] == HASH ==> TokenStart(s, p) == TokenStart(s, SkipLine(s, p + 1))
    ensures p < |s| && IsTokenByte(s[p]) ==> TokenStart(s, p) == p
  {
  }

  /** One step of the comment loop, unfolded. */
  lemma SkipLineStep(s: seq<byte>, p: nat)
    requires p <= |s|
    ensures p == |s| ==> SkipLine(s, p) == |s|
    ensures p < |s| && s[p] == LF ==> SkipLine(s, p) == p + 1
    ensures p < |s| && s[p] != LF ==> SkipLine(s, p) == SkipLine(s, p + 1)
  {
  }

  /** One step of the collect loop, unfolded. */
  lemma CollectEndStep(s: seq<byte>, i: nat, limit: nat)
    requires i <= |s| && i <= limit
    ensures i < limit && i < |s| && IsTokenByte(s[i]) ==> CollectEnd(s, i, limit) == CollectEnd(s, i + 1, limit)
    ensures i == limit || i == |s| || !IsTokenByte(s[i]) ==> CollectEnd(s, i, limit) == i
  {
  }

  /**
   * Cursor after a token that ends at `end` with buffer limit `limit`: past a
   * blank terminator, which is consumed; at anything else ('#' is pushed
   * back, EOF and a full buffer read nothing more).
   */
  function AfterToken(s: seq<byte>, end: nat, limit: nat): (r: nat)
    requires end <= |s|
    ensures r <= |s|
    ensures end <= r <= end + 1
    ensures r == end + 1 ==> IsBlank(s[end])
  {
    if end < limit && end < |s| && IsBlank(s[end]) then end + 1 else end
  }

  /** Outcome of one read_token call: 0 (nothing left), or the token and the cursor after it. */
  datatype Scan = EndOfInput | Token(text: seq<byte>, next: nat)

  /** read_token(f, buf, max) on the stream `s` at cursor `pos`. */
  function NextToken(s: seq<byte>, pos: nat, max: int): (r: Scan)
    requires pos <= |s| && 2 <= max
    ensures r.Token? ==> r.next <= |s|
  {
    var start := TokenStart(s, pos);
    if start == |s| then EndOfInput
    else
      var end := CollectEnd(s, start + 1, start + max - 1);
      Token(s[start..end], AfterToken(s, end, start + max - 1))
  }

  /**
   * What a token is: a non-empty run of token bytes starting where the skip
   * loop stops, at most max - 1 long, cut only by the buffer limit, EOF or a
   * delimiter. A blank terminator is consumed; a '#' terminator is pushed
   * back, and EOF or the buffer limit leave the cursor right after the token.
   */
  lemma NextTokenShape(s: seq<byte>, pos: nat, max: int)
    requires pos <= |s| && 2 <= max
    ensures NextToken(s, pos, max).EndOfInput? <==> TokenStart(s, pos) == |s|
    ensures NextToken(s, pos, max).Token? ==>
      var tok, start := NextToken(s, pos, max), TokenStart(s, pos);
      var end := start + |tok.text|;
      && 1 <= |tok.text| <= max - 1
      && end <= |s| && tok.text == s[start..end]
      && AllTokenBytes(tok.text)
      && (|tok.text| < max - 1 && end < |s| ==> !IsTokenByte(s[end]))
      && (end < |s| && s[end] == HASH ==> tok.next == end)
      && (|tok.text| < max - 1 && end < |s| && IsBlank(s[end]) ==> tok.next == end + 1)
      && (end == |s| || |tok.text| == max - 1 ==> tok.next == end)
  {
  }

  // ---------------------------------------------------------------------
  // read_token, the loops (ppm_io.c lines 6-34)

  /**
   * The comment loop (line 13), entered just after a '#': reads up to and
   * including the line feed, or to EOF.
   */
  method SkipComment(s: seq<byte>, p0: nat) returns (c: int, p: nat)
    requires p0 <= |s|
    ensures p0 <= p <= |s|
    ensures c == EOF || c == LF
    ensures c == EOF ==> p == |s| == SkipLine(s, p0)
    ensures c == LF ==> 0 < p && s[p - 1] == LF && p == SkipLine(s, p0)
  {
    c, p := HASH as int, p0;
    while c != LF && c != EOF
      invariant p0 <= p <= |s|
      invariant c == EOF ==> p == |s| == SkipLine(s, p0)
      invariant c == LF ==> 0 < p && s[p - 1] == LF && p == SkipLine(s, p0)
      invariant c != EOF && c != LF ==> SkipLine(s, p0) == SkipLine(s, p)
      decreases |s| - p, c != EOF
    {
      SkipLineStep(s, p);
      c, p := Fgetc(s, p);
    }
  }

  /**
   * The skip loop (lines 9-15): reads bytes, skipping blanks and comments,
   * until the first byte of a token or EOF.
   */
  method SkipBlanks(s: seq<byte>, pos: nat) returns (c: int, p: nat)
    requires pos <= |s|
    ensures pos <= p <= |s|
    ensures c == EOF ==> p == |s| == TokenStart(s, pos)
    ensures c != EOF ==> 0 < p && c == s[p - 1] && TokenStart(s, pos) == p - 1
  {
    c, p := EOF, pos;
    var again := true;
    while again
      invariant pos <= p <= |s|
      invariant again ==> TokenStart(s, pos) == TokenStart(s, p)
      invariant !again && c == EOF ==> p == |s| == TokenStart(s, pos)
      invariant !again && c != EOF ==> 0 < p && c == s[p - 1] && TokenStart(s, pos) == p - 1
      decreases |s| - p, again
    {
      TokenStartStep(s, p);
      c, p := Fgetc(s, p);
      if c == HASH {
        TokenStartStep(s, SkipLine(s, p));
        c, p := SkipComment(s, p);
      }
      again := c != EOF && IsBlank(c);
    }
  }

  /**
   * The collect loop (lines 19-33), entered with the token's first byte
   * `s[start]` already read: appends token bytes until the buffer holds
   * max - 1 of them or a delimiter or EOF is read.
   */
  method CollectToken(s: seq<byte>, start: nat, max: int) returns (tok: seq<byte>, next: nat)
    requires start < |s| && 2 <= max
    ensures tok == s[start..CollectEnd(s, start + 1, start + max - 1)]
    ensures next == AfterToken(s, CollectEnd(s, start + 1, start + max - 1), start + max - 1)
  {
    ghost var limit := start + max - 1;
    var c: int, p: nat := s[start], start + 1;
    tok := [c as byte];
    while |tok| < max - 1
      invariant 1 <= |tok| <= max - 1
      invariant p == start + |tok| <= |s|
      invariant tok == s[start..p]
      invariant CollectEnd(s, start + 1, limit) == CollectEnd(s, p, limit)
    {
      CollectEndStep(s, p, limit);
      c, p := Fgetc(s, p);
      if c == EOF || IsBlank(c) || c == HASH {
        if c == HASH {
          // a '#' opens a comment: leave it in the stream for the next call
          p := Ungetc(s, c, p);
        }
        return tok, p;
      }
      tok := tok + [c as byte];
    }
    CollectEndStep(s, p, limit);
    next := p;
  }

  /** read_token (lines 6-34): skip to the next token, then collect it. */
  method ReadToken(s: seq<byte>, pos: nat, max: int) returns (found: bool, tok: seq<byte>, next: nat)
    requires pos <= |s| && 2 <= max
    ensures NextToken(s, pos, max) == if found then Token(tok, next) else EndOfInput
  {
    var c, p := SkipBlanks(s, pos);
    if c == EOF {
      return false, [], p;
    }
    found := true;
    tok, next := CollectToken(s, p - 1, max);
  }

  /** A word of token bytes followed by a blank is read whole, and the blank is consumed. */
  lemma NextTokenOfWord(s: seq<byte>, p: nat, w: seq<byte>, sep: byte, rest: seq<byte>, max: int)
    requires p <= |s| && s[p..] == w + ([sep] + rest) && IsBlank(sep)
    requires 1 <= |w| < max - 1 && AllTokenBytes(w)
    ensures NextToken(s, p, max) == Token(w, p + |w| + 1)
  {
    var e := p + |w|;
    assert s[p] == s[p..][0] == w[0];
    TokenStartStep(s, p);
    assert s[e] == s[p..][|w|] == sep;
    assert s[p..e] == s[p..][..|w|] == w;
  }

  // ---------------------------------------------------------------------
  // When read_token finds nothing

  predicate NoLineFeed(s: seq<byte>, j: nat, k: nat)
    requires j <= k <= |s|
  {
    forall i :: j <= i < k ==> s[i] != LF
  }

  /** Byte `k` lies in a comment opened at or after `p`: some `#` before it on the same line. */
  ghost predicate InComment(s: seq<byte>, p: nat, k: nat)
    requires p <= k < |s|
  {
    exists j :: p <= j <= k && s[j] == HASH && NoLineFeed(s, j, k)
  }

  /** Byte `k` is white space or comment text, for a scan that starts at `p`. */
  ghost predicate Skippable(s: seq<byte>, p: nat, k: nat)
    requires p <= k < |s|
  {
    IsBlank(s[k]) || InComment(s, p, k)
  }

  lemma InCommentLater(s: seq<byte>, p: nat, q: nat, k: nat)
    requires p <= q <= k < |s| && InComment(s, q, k)
    ensures InComment(s, p, k)
  {
    var j :| q <= j <= k && s[j] == HASH && NoLineFeed(s, j, k);
  }

  /** The skip loop stops at the first byte that is neither white space nor comment text. */
  lemma {:induction false} TokenStartIsFirstUnskippable(s: seq<byte>, p: nat)
    requires p <= |s|
    ensures forall k :: p <= k < TokenStart(s, p) ==> Skippable(s, p, k)
    ensures TokenStart(s, p) < |s| ==> !Skippable(s, p, TokenStart(s, p))
    decreases |s| - p
  {
    var t := TokenStart(s, p);
    if p == |s| {
    } else if IsBlank(s[p]) {
      TokenStartIsFirstUnskippable(s, p + 1);
      forall k | p < k < t
        ensures Skippable(s, p, k)
      {
        assert Skippable(s, p + 1, k);
        if !IsBlank(s[k]) {
          InCommentLater(s, p, p + 1, k);
        }
      }
      if t < |s| {
        forall j | p <= j <= t && s[j] == HASH
          ensures !NoLineFeed(s, j, t)
        {
          assert !InComment(s, p + 1, t);
        }
      }
    } else if s[p] == HASH {
      var e := LineEnd(s, p + 1);
      if e == |s| {
        forall k | p <= k < |s|
          ensures Skippable(s, p, k)
        {
          assert NoLineFeed(s, p, k);
        }
      } else {
        TokenStartIsFirstUnskippable(s, e + 1);
        forall k | p <= k < t
          ensures Skippable(s, p, k)
        {
          if k < e {
            assert NoLineFeed(s, p, k);
          } else if e < k && !IsBlank(s[k]) {
            assert Skippable(s, e + 1, k);
            InCommentLater(s, p, e + 1, k);
          }
        }
        if t < |s| {
          forall j | p <= j <= t && s[j] == HASH
            ensures !NoLineFeed(s, j, t)
          {
            if j <= e {
              assert s[e] == LF;
            } else {
              assert !InComment(s, e + 1, t);
            }
          }
        }
      }
    }
  }

  /** read_token returns 0 exactly when only white space and comments remain. */
  lemma ReadTokenFailsIffOnlyBlanks(s: seq<byte>, pos: nat, max: int)
    requires pos <= |s| && 2 <= max
    ensures NextToken(s, pos, max).EndOfInput? <==> forall k :: pos <= k < |s| ==> Skippable(s, pos, k)
  {
    TokenStartIsFirstUnskippable(s, pos);
  }

  // ---------------------------------------------------------------------
  // read_ppm (ppm_io.c lines 36-69)

  /** The PPMImage struct that read_ppm fills. */
  datatype PpmImage = PpmImage(width: int, height: int, maxval: int, channels: int, stride: int, data: seq<byte>)

  /** Why read_ppm returns 0 (it does not tell them apart). */
  datatype ReadError = MissingToken | BadMagic | BadHeaderValue | TruncatedData

  datatype ReadResult = Decoded(image: PpmImage) | Failed(error: ReadError)

  predicate IsSeparatorBlank(c: int) {
    c == LF || c == SP || c == TAB
  }

  /**
   * Cursor after the separator step that follows the header: a `\r` is
   * dropped and the next byte is read; that byte is dropped if it is `\n`,
   * space or tab and pushed back otherwise.
   */
  function SkipSeparator(s: seq<byte>, p: nat): (q: nat)
    requires p <= |s|
    ensures p <= q <= |s| && q <= p + 2
    ensures p == |s| || (s[p] != CR && !IsSeparatorBlank(s[p])) ==> q == p
    ensures p < |s| && IsSeparatorBlank(s[p]) ==> q == p + 1
    ensures p < |s| && s[p] == CR ==>
      p + 1 <= q && (q == p + 2 <==> p + 1 < |s| && IsSeparatorBlank(s[p + 1]))
  {
    var p1 := if p < |s| && s[p] == CR then p + 1 else p;
    if p1 < |s| && IsSeparatorBlank(s[p1]) then p1 + 1 else p1
  }

  /** The four header tokens as read_ppm converts them, and the cursor after the last one. */
  datatype Header = Header(width: int, height: int, maxval: int, end: nat) | HeaderError(error: ReadError)

  /** Lines 42-49: the magic token must be "P6" (as a C string); then width, height and maxval via atoi. */
  function ParseHeader(s: seq<byte>): (h: Header)
    ensures h.Header? ==> h.end <= |s|
    ensures h.HeaderError? ==> h.error == MissingToken || h.error == BadMagic
    ensures NextToken(s, 0, TokenBufferSize).EndOfInput? ==> h == HeaderError(MissingToken)
    ensures h == HeaderError(BadMagic) <==>
      NextToken(s, 0, TokenBufferSize).Token? && CString(NextToken(s, 0, TokenBufferSize).text) != MagicP6
  {
    match NextToken(s, 0, TokenBufferSize)
    case EndOfInput => HeaderError(MissingToken)
    case Token(magic, p1) =>
      if CString(magic) != MagicP6 then HeaderError(BadMagic)
      else ParseDimensions(s, p1)
  }

  /** Lines 44-49: the width, height and maxval tokens from `p` on, each read with atoi. */
  function ParseDimensions(s: seq<byte>, p: nat): (h: Header)
    requires p <= |s|
    ensures h.Header? ==> h.end <= |s|
    ensures h.HeaderError? ==> h.error == MissingToken
    ensures h == HeaderError(MissingToken) <==>
      match NextToken(s, p, TokenBufferSize)
      case EndOfInput => true
      case Token(_, p2) =>
        match NextToken(s, p2, TokenBufferSize)
        case EndOfInput => true
        case Token(_, p3) => NextToken(s, p3, TokenBufferSize).EndOfInput?
  {
    match NextToken(s, p, TokenBufferSize)
    case EndOfInput => HeaderError(MissingToken)
    case Token(wtok, p2) =>
      match NextToken(s, p2, TokenBufferSize)
      case EndOfInput => HeaderError(MissingToken)
      case Token(htok, p3) =>
        match NextToken(s, p3, TokenBufferSize)
        case EndOfInput => HeaderError(MissingToken)
        case Token(mtok, p4) => Header(Atoi(CString(wtok)), Atoi(CString(htok)), Atoi(CString(mtok)), p4)
  }

  /** Lines 50-68: range checks, the separator step, and the fread of width * height * 3 bytes. */
  function DecodePixels(s: seq<byte>, h: Header): (r: ReadResult)
    requires h.Header? ==> h.end <= |s|
    ensures h.HeaderError? ==> r == Failed(h.error)
    ensures h.Header? ==>
      (r == Failed(BadHeaderValue) <==> h.width <= 0 || h.height <= 0 || h.maxval <= 0 || h.maxval > 255)
    ensures r.Decoded? ==>
      var q, count := SkipSeparator(s, h.end), h.width * h.height * 3;
      h.Header? && 0 <= count <= |s| - q && r.image.data == s[q..q + count]
    ensures r.Decoded? ==>
      var img := r.image;
      && h.Header? && img.width == h.width && img.height == h.height && img.maxval == h.maxval
      && 0 < img.width && 0 < img.height && 0 < img.maxval <= 255
      && img.channels == 3 && img.stride == img.width * 3
      && |img.data| == img.width * img.height * 3
    ensures h.Header? && 0 < h.width && 0 < h.height && 0 < h.maxval <= 255 ==>
      && (r.Decoded? <==> h.width * h.height * 3 <= |s| - SkipSeparator(s, h.end))
      && (!r.Decoded? ==> r == Failed(TruncatedData))
  {
    match h
    case HeaderError(e) => Failed(e)
    case Header(width, height, maxval, end) =>
      if width <= 0 || height <= 0 || maxval <= 0 || maxval > 255 then Failed(BadHeaderValue)
      else
        var q := SkipSeparator(s, end);
        var count := width * height * 3;
        if |s| - q < count then Failed(TruncatedData)
        else Decoded(PpmImage(width, height, maxval, 3, width * 3, s[q..q + count]))
  }

  /** What read_ppm reports for the file contents `s`. */
  function DecodePpm(s: seq<byte>): (r: ReadResult)
    ensures NextToken(s, 0, TokenBufferSize).EndOfInput? ==> r == Failed(MissingToken)
    ensures r == Failed(BadMagic) <==>
      NextToken(s, 0, TokenBufferSize).Token? && CString(NextToken(s, 0, TokenBufferSize).text) != MagicP6
    ensures r.Decoded? ==>
      && NextToken(s, 0, TokenBufferSize).Token? && CString(NextToken(s, 0, TokenBufferSize).text) == MagicP6
      && 0 < r.image.width && 0 < r.image.height && 0 < r.image.maxval <= 255
      && r.image.channels == 3 && r.image.stride == r.image.width * 3
      && |r.image.data| == r.image.width * r.image.height * 3 <= |s|
    ensures r.Decoded? ==>
      var h := ParseHeader(s);
      && h.Header? && r.image.width == h.width && r.image.height == h.height && r.image.maxval == h.maxval
      && var q, count := SkipSeparator(s, h.end), h.width * h.height * 3;
         0 <= count <= |s| - q && r.image.data == s[q..q + count]
    ensures
      var h := ParseHeader(s);
      h.Header? && 0 < h.width && 0 < h.height && 0 < h.maxval <= 255 ==>
        && (r.Decoded? <==> h.width * h.height * 3 <= |s| - SkipSeparator(s, h.end))
        && (!r.Decoded? ==> r == Failed(TruncatedData))
  {
    DecodePixels(s, ParseHeader(s))
  }

  method ReadPpmHeader(s: seq<byte>) returns (h: Header)
    ensures h == ParseHeader(s)
  {
    var found, tok, p := ReadToken(s, 0, TokenBufferSize);
    if !found { return HeaderError(MissingToken); }
    if CString(tok) != MagicP6 { return HeaderError(BadMagic); }
    h := ReadDimensions(s, p);
  }

  method ReadDimensions(s: seq<byte>, pos: nat) returns (h: Header)
    requires pos <= |s|
    ensures h == ParseDimensions(s, pos)
  {
    var found, tok, p := ReadToken(s, pos, TokenBufferSize);
    if !found { return HeaderError(MissingToken); }
    var width := Atoi(CString(tok));
    found, tok, p := ReadToken(s, p, TokenBufferSize);
    if !found { return HeaderError(MissingToken); }
    var height := Atoi(CString(tok));
    found, tok, p := ReadToken(s, p, TokenBufferSize);
    if !found { return HeaderError(MissingToken); }
    var maxval := Atoi(CString(tok));
    h := Header(width, height, maxval, p);
  }

  method ReadPixels(s: seq<byte>, h: Header) returns (r: ReadResult)
    requires h.Header? ==> h.end <= |s|
    ensures r == DecodePixels(s, h)
  {
    if h.HeaderError? {
      return Failed(h.error);
    }
    if h.width <= 0 || h.height <= 0 || h.maxval <= 0 || h.maxval > 255 {
      return Failed(BadHeaderValue);
    }
    // the separator step: an optional CR, then at most one separator byte
    var c, p := Fgetc(s, h.end);
    if c == CR {
      c, p := Fgetc(s, p);
    }
    if !IsSeparatorBlank(c) {
      p := Ungetc(s, c, p);
    }
    // fread of width * height * 3 bytes
    var count := h.width * h.height * 3;
    if |s| - p < count {
      return Failed(TruncatedData);
    }
    r := Decoded(PpmImage(h.width, h.height, h.maxval, 3, h.width * 3, s[p..p + count]));
  }

  /** read_ppm: the header, then the pixels. */
  method ReadPpm(s: seq<byte>) returns (r: ReadResult)
    ensures r == DecodePpm(s)
  {
    var h := ReadPpmHeader(s);
    r := ReadPixels(s, h);
  }

  // ---------------------------------------------------------------------
  // write_pgm (ppm_io.c lines 71-81)

  /** A word of header text and the one separator byte `fprintf` writes after it. */
  datatype Field = Field(word: seq<byte>, sep: byte)

  /** The fields, each word followed by its separator, then `rest`. */
  function Fields(fs: seq<Field>, rest: seq<byte>): seq<byte>
    decreases |fs|
  {
    if fs == [] then rest else fs[0].word + ([fs[0].sep] + Fields(fs[1..], rest))
  }

  /** Number of bytes the fields take. */
  function FieldsLength(fs: seq<Field>): nat
    decreases |fs|
  {
    if fs == [] then 0 else |fs[0].word| + 1 + FieldsLength(fs[1..])
  }

  /**
   * The fields of `fprintf(f, "<magic>\n%d %d\n%d\n", width, height, maxval)`:
   * the magic and a line feed, width and a space, height and a line feed,
   * maxval and a line feed.
   */
  function HeaderFields(magic: seq<byte>, width: int, height: int, maxval: int): seq<Field>
  {
    [Field(magic, LF), Field(DecInt(width), SP), Field(DecInt(height), LF), Field(DecInt(maxval), LF)]
  }

  /** The header text followed by `rest`. */
  function NetpbmText(magic: seq<byte>, width: int, height: int, maxval: int, rest: seq<byte>): seq<byte>
  {
    Fields(HeaderFields(magic, width, height, maxval), rest)
  }

  /** The header text alone. */
  function NetpbmHeader(magic: seq<byte>, width: int, height: int, maxval: int): (r: seq<byte>)
    ensures r == magic + [LF] + DecInt(width) + [SP] + DecInt(height) + [LF] + DecInt(maxval) + [LF]
  {
    var fs := HeaderFields(magic, width, height, maxval);
    var w, h, m := DecInt(width), DecInt(height), DecInt(maxval);
    assert Fields(fs[3..], []) == m + [LF] by {
      assert fs[3..][1..] == [];
    }
    assert Fields(fs[2..], []) == h + ([LF] + (m + [LF])) by {
      assert fs[2..][1..] == fs[3..];
    }
    assert Fields(fs[1..], []) == w + ([SP] + (h + ([LF] + (m + [LF])))) by {
      assert fs[1..][1..] == fs[2..];
    }
    NetpbmText(magic, width, height, maxval, [])
  }

  lemma {:induction false} FieldsThen(fs: seq<Field>, rest: seq<byte>)
    ensures Fields(fs, []) + rest == Fields(fs, rest)
    ensures |Fields(fs, rest)| == FieldsLength(fs) + |rest|
    decreases |fs|
  {
    if fs != [] {
      FieldsThen(fs[1..], rest);
      var w, t := fs[0].word, Fields(fs[1..], []);
      assert (w + ([fs[0].sep] + t)) + rest == w + ([fs[0].sep] + (t + rest));
    }
  }

  /** Writing more bytes after the header appends them to the header text. */
  lemma NetpbmHeaderThen(magic: seq<byte>, width: int, height: int, maxval: int, rest: seq<byte>)
    ensures NetpbmHeader(magic, width, height, maxval) + rest == NetpbmText(magic, width, height, maxval, rest)
    ensures |NetpbmText(magic, width, height, maxval, rest)| == |NetpbmHeader(magic, width, height, maxval)| + |rest|
  {
    var fs := HeaderFields(magic, width, height, maxval);
    FieldsThen(fs, rest);
    FieldsThen(fs, []);
  }

  /** Source rows 0 .. n-1 of a strided buffer, `width` bytes each, without the stride padding. */
  function PgmRows(data: seq<byte>, stride: nat, width: nat, n: nat): (r: seq<byte>)
    requires RowsFit(|data|, stride, width, n)
    ensures |r| == n * width
  {
    if n == 0 then []
    else
      RowInBounds(|data|, stride, width, n, n - 1);
      var row := (n - 1) * stride;
      PgmRows(data, stride, width, n - 1) + data[row..row + width]
  }

  /** One more row: row n of the source is appended. */
  lemma PgmRowsStep(data: seq<byte>, stride: nat, width: nat, rows: int, n: nat)
    requires RowsFit(|data|, stride, width, rows) && n < rows
    ensures RowsFit(|data|, stride, width, n) && RowsFit(|data|, stride, width, n + 1)
    ensures 0 <= n * stride && n * stride + width <= |data|
    ensures PgmRows(data, stride, width, n + 1) == PgmRows(data, stride, width, n) + data[n * stride..n * stride + width]
  {
    RowInBounds(|data|, stride, width, rows, n);
  }

  /** The file write_pgm produces. */
  function PgmFile(width: nat, height: int, maxval: int, data: seq<byte>, stride: nat): (r: seq<byte>)
    requires RowsFit(|data|, stride, width, height)
    ensures |r| == |NetpbmHeader(MagicP5, width, height, maxval)| + width * (if height < 0 then 0 else height)
    ensures r[..|NetpbmHeader(MagicP5, width, height, maxval)|] == NetpbmHeader(MagicP5, width, height, maxval)
  {
    NetpbmHeader(MagicP5, width, height, maxval) + PgmRows(data, stride, width, if height < 0 then 0 else height)
  }

  /** Byte x of stored row y is byte x of source row y: the stride padding is dropped. */
  lemma {:induction false} PgmRowsSample(data: seq<byte>, stride: nat, width: nat, n: nat, y: nat, x: nat)
    requires RowsFit(|data|, stride, width, n) && y < n && x < width
    ensures y * width + x < |PgmRows(data, stride, width, n)|
    ensures y * stride + x < |data|
    ensures PgmRows(data, stride, width, n)[y * width + x] == data[y * stride + x]
    decreases n
  {
    PgmRowsStep(data, stride, width, n, n - 1);
    RowInBounds(|data|, stride, width, n, y);
    var before := PgmRows(data, stride, width, n - 1);
    if y < n - 1 {
      PgmRowsSample(data, stride, width, n - 1, y, x);
    } else {
      assert |before| == y * width;
    }
  }

  /** write_pgm writes the header, then `width` bytes per row and nothing else; byte x of row y is `data[y * stride + x]`. */
  lemma PgmFileLayout(width: nat, height: int, maxval: int, data: seq<byte>, stride: nat, y: nat, x: nat)
    requires RowsFit(|data|, stride, width, height)
    ensures |PgmFile(width, height, maxval, data, stride)| == |NetpbmHeader(MagicP5, width, height, maxval)| + width * (if height < 0 then 0 else height)
    ensures y < height && x < width ==>
      var i := |NetpbmHeader(MagicP5, width, height, maxval)| + y * width + x;
      && y * stride + x < |data| && i < |PgmFile(width, height, maxval, data, stride)|
      && PgmFile(width, height, maxval, data, stride)[i] == data[y * stride + x]
  {
    PgmRowsAfter(NetpbmHeader(MagicP5, width, height, maxval), data, stride, width, if height < 0 then 0 else height, y, x);
  }

  /** The rows after any prefix: `width` bytes per row, byte x of row y at offset y * width + x past the prefix. */
  lemma PgmRowsAfter(prefix: seq<byte>, data: seq<byte>, stride: nat, width: nat, n: nat, y: nat, x: nat)
    requires RowsFit(|data|, stride, width, n)
    ensures |prefix + PgmRows(data, stride, width, n)| == |prefix| + width * n
    ensures y < n && x < width ==>
      && y * stride + x < |data| && |prefix| + y * width + x < |prefix + PgmRows(data, stride, width, n)|
      && (prefix + PgmRows(data, stride, width, n))[|prefix| + y * width + x] == data[y * stride + x]
  {
    if y < n && x < width {
      PgmRowsSample(data, stride, width, n, y, x);
    }
  }

  method WritePgm(width: int, height: int, maxval: int, data: seq<byte>, stride: int) returns (out: seq<byte>)
    requires 0 <= width && 0 <= stride && RowsFit(|data|, stride, width, height)
    ensures out == PgmFile(width, height, maxval, data, stride)
  {
    var header := NetpbmHeader(MagicP5, width, height, maxval);
    out := AppendPgmRows(header, data, stride, width, height);
  }

  /** The row loop of write_pgm: `width` bytes of each row, top row first, after what was written so far. */
  method AppendPgmRows(prefix: seq<byte>, data: seq<byte>, stride: nat, width: nat, height: int) returns (out: seq<byte>)
    requires RowsFit(|data|, stride, width, height)
    ensures out == prefix + PgmRows(data, stride, width, if height < 0 then 0 else height)
  {
    out := prefix;
    var y := 0;
    while y < height
      invariant 0 <= y <= (if height < 0 then 0 else height)
      invariant RowsFit(|data|, stride, width, y)
      invariant out == prefix + PgmRows(data, stride, width, y)
    {
      PgmRowsStep(data, stride, width, height, y);
      var row := y * stride;
      out := out + data[row..row + width];
      y := y + 1;
    }
  }

  // ---------------------------------------------------------------------
  // Reading back what fprintf wrote

  /** The text `printf("%d")` writes for an `int` is one token, and `atoi` reads the number back. */
  lemma DecIntIsWord(n: i32)
    ensures 1 <= |DecInt(n)| <= 11 && AllTokenBytes(DecInt(n))
    ensures Atoi(CString(DecInt(n))) == n
  {
    var r := DecInt(n);
    DecIntLength(n);
    forall i | 0 <= i < |r|
      ensures IsTokenByte(r[i]) && r[i] != 0
    {
      if n < 0 && i > 0 {
        assert r[i] == r[1..][i - 1];
      }
    }
    CStringOfNoNul(r);
    AtoiOfDecInt(n);
  }

  /** A field read_token returns whole, blank consumed: 1 to 62 token bytes and a blank. */
  predicate IsTokenField(f: Field) {
    1 <= |f.word| < TokenBufferSize - 1 && AllTokenBytes(f.word) && IsBlank(f.sep)
  }

  /** The bytes from the start of field `i` on are the fields from `i` on. */
  lemma {:induction false} FieldsSuffix(fs: seq<Field>, rest: seq<byte>, i: nat)
    requires i <= |fs|
    ensures FieldsLength(fs[..i]) <= |Fields(fs, rest)|
    ensures Fields(fs, rest)[FieldsLength(fs[..i])..] == Fields(fs[i..], rest)
    decreases i
  {
    if i > 0 {
      var s, t := Fields(fs, rest), Fields(fs[1..], rest);
      FieldsSuffix(fs[1..], rest, i - 1);
      assert fs[1..][..i - 1] == fs[..i][1..];
      assert fs[1..][i - 1..] == fs[i..];
      var n := |fs[0].word| + 1;
      assert s[n..] == t;
      assert s[FieldsLength(fs[..i])..] == t[FieldsLength(fs[..i][1..])..];
    }
  }

  lemma FieldsLengthStep(fs: seq<Field>, i: nat)
    requires i < |fs|
    ensures FieldsLength(fs[..i + 1]) == FieldsLength(fs[..i]) + |fs[i].word| + 1
    decreases i
  {
    if i > 0 {
      FieldsLengthStep(fs[1..], i - 1);
      assert fs[1..][..i] == fs[..i + 1][1..];
      assert fs[1..][..i - 1] == fs[..i][1..];
    }
  }

  /** Field `i` of text made of token fields is read as one token, and the cursor moves to field `i + 1`. */
  lemma NextTokenOfField(fs: seq<Field>, rest: seq<byte>, i: nat)
    requires i < |fs| && IsTokenField(fs[i])
    ensures FieldsLength(fs[..i]) <= FieldsLength(fs[..i + 1]) <= |Fields(fs, rest)|
    ensures NextToken(Fields(fs, rest), FieldsLength(fs[..i]), TokenBufferSize) == Token(fs[i].word, FieldsLength(fs[..i + 1]))
  {
    var s, p := Fields(fs, rest), FieldsLength(fs[..i]);
    FieldsSuffix(fs, rest, i);
    FieldsLengthStep(fs, i);
    assert s[p..] == fs[i].word + ([fs[i].sep] + Fields(fs[i + 1..], rest)) by {
      assert fs[i..][1..] == fs[i + 1..];
    }
    NextTokenOfWord(s, p, fs[i].word, fs[i].sep, Fields(fs[i + 1..], rest), TokenBufferSize);
  }

  /** The magic step of read_ppm: a magic other than "P6" stops it, otherwise the number steps decide. */
  lemma ParseHeaderOfMagic(s: seq<byte>, t0: seq<byte>, p1: nat, d: Header)
    requires p1 <= |s| && NextToken(s, 0, TokenBufferSize) == Token(t0, p1) && ParseDimensions(s, p1) == d
    ensures ParseHeader(s) == if CString(t0) != MagicP6 then HeaderError(BadMagic) else d
  {
  }

  /** The number steps of read_ppm, given the three tokens the stream yields and the cursor after each. */
  lemma ParseDimensionsOfTokens(s: seq<byte>, t1: seq<byte>, t2: seq<byte>, t3: seq<byte>, p1: nat, p2: nat, p3: nat, p4: nat)
    requires p1 <= |s| && p2 <= |s| && p3 <= |s|
    requires NextToken(s, p1, TokenBufferSize) == Token(t1, p2)
    requires NextToken(s, p2, TokenBufferSize) == Token(t2, p3)
    requires NextToken(s, p3, TokenBufferSize) == Token(t3, p4)
    ensures ParseDimensions(s, p1) == Header(Atoi(CString(t1)), Atoi(CString(t2)), Atoi(CString(t3)), p4)
  {
  }

  /** The header steps of read_ppm, given the four tokens the stream yields and the cursor after each. */
  lemma ParseHeaderOfTokens(s: seq<byte>, t0: seq<byte>, t1: seq<byte>, t2: seq<byte>, t3: seq<byte>, p1: nat, p2: nat, p3: nat, p4: nat)
    requires p1 <= |s| && p2 <= |s| && p3 <= |s|
    requires NextToken(s, 0, TokenBufferSize) == Token(t0, p1)
    requires NextToken(s, p1, TokenBufferSize) == Token(t1, p2)
    requires NextToken(s, p2, TokenBufferSize) == Token(t2, p3)
    requires NextToken(s, p3, TokenBufferSize) == Token(t3, p4)
    ensures ParseHeader(s) ==
      if CString(t0) != MagicP6 then HeaderError(BadMagic)
      else Header(Atoi(CString(t1)), Atoi(CString(t2)), Atoi(CString(t3)), p4)
  {
    var d := Header(Atoi(CString(t1)), Atoi(CString(t2)), Atoi(CString(t3)), p4);
    ParseDimensionsOfTokens(s, t1, t2, t3, p1, p2, p3, p4);
    ParseHeaderOfMagic(s, t0, p1, d);
  }

  /** Token i of text that reads as four fields in a row is field i's word, and the cursor moves to field i + 1. */
  predicate ReadsAsFields(s: seq<byte>, fs: seq<Field>)
  {
    forall i {:trigger fs[..i]} :: 0 <= i < |fs| ==>
      FieldsLength(fs[..i]) <= FieldsLength(fs[..i + 1]) <= |s|
      && NextToken(s, FieldsLength(fs[..i]), TokenBufferSize) == Token(fs[i].word, FieldsLength(fs[..i + 1]))
  }

  /** read_ppm's header steps on any text that reads as four fields. */
  lemma ParseHeaderOfFields(s: seq<byte>, fs: seq<Field>)
    requires |fs| == 4 && ReadsAsFields(s, fs)
    ensures FieldsLength(fs) <= |s|
    ensures ParseHeader(s) ==
      if CString(fs[0].word) != MagicP6 then HeaderError(BadMagic)
      else Header(Atoi(CString(fs[1].word)), Atoi(CString(fs[2].word)), Atoi(CString(fs[3].word)), FieldsLength(fs))
  {
    var p0, p1, p2, p3, p4 := FieldsLength(fs[..0]), FieldsLength(fs[..1]), FieldsLength(fs[..2]), FieldsLength(fs[..3]), FieldsLength(fs[..4]);
    assert NextToken(s, p0, TokenBufferSize) == Token(fs[0].word, p1);
    assert p0 == 0 by {
      assert fs[..0] == [];
    }
    assert NextToken(s, p1, TokenBufferSize) == Token(fs[1].word, p2);
    assert NextToken(s, p2, TokenBufferSize) == Token(fs[2].word, p3);
    assert p4 <= |s| && NextToken(s, p3, TokenBufferSize) == Token(fs[3].word, p4);
    assert fs[..4] == fs;
    ParseHeaderOfTokens(s, fs[0].word, fs[1].word, fs[2].word, fs[3].word, p1, p2, p3, p4);
  }

  /** read_ppm's header steps on four token fields: the magic decides, then the three numbers are read with atoi. */
  lemma ParseFourFields(fs: seq<Field>, px: seq<byte>)
    requires |fs| == 4 && IsTokenField(fs[0]) && IsTokenField(fs[1]) && IsTokenField(fs[2]) && IsTokenField(fs[3])
    ensures FieldsLength(fs) <= |Fields(fs, px)|
    ensures ParseHeader(Fields(fs, px)) ==
      if CString(fs[0].word) != MagicP6 then HeaderError(BadMagic)
      else Header(Atoi(CString(fs[1].word)), Atoi(CString(fs[2].word)), Atoi(CString(fs[3].word)), FieldsLength(fs))
  {
    var s := Fields(fs, px);
    forall i {:trigger fs[..i]} | 0 <= i < |fs|
      ensures FieldsLength(fs[..i]) <= FieldsLength(fs[..i + 1]) <= |s|
        && NextToken(s, FieldsLength(fs[..i]), TokenBufferSize) == Token(fs[i].word, FieldsLength(fs[..i + 1]))
    {
      NextTokenOfField(fs, px, i);
    }
    ParseHeaderOfFields(s, fs);
  }

  /** read_ppm's header steps on a header written by `fprintf`: only the magic can make them fail. */
  lemma ParseNetpbmHeader(magic: seq<byte>, w: i32, h: i32, m: i32, px: seq<byte>)
    requires 1 <= |magic| < TokenBufferSize - 1 && AllTokenBytes(magic)
    ensures ParseHeader(NetpbmText(magic, w, h, m, px)) ==
      if CString(magic) != MagicP6 then HeaderError(BadMagic)
      else Header(w, h, m, |NetpbmHeader(magic, w, h, m)|)
  {
    var fs := HeaderFields(magic, w, h, m);
    assert IsTokenField(fs[1]) && Atoi(CString(fs[1].word)) == w by {
      DecIntIsWord(w);
    }
    assert IsTokenField(fs[2]) && Atoi(CString(fs[2].word)) == h by {
      DecIntIsWord(h);
    }
    assert IsTokenField(fs[3]) && Atoi(CString(fs[3].word)) == m by {
      DecIntIsWord(m);
    }
    ParseFourFields(fs, px);
    FieldsThen(fs, []);
  }

  /** The separator step right after a header reads from the pixel bytes alone. */
  lemma SkipSeparatorAfter(header: seq<byte>, px: seq<byte>)
    ensures SkipSeparator(header + px, |header|) == |header| + SkipSeparator(px, 0)
  {
    var s := header + px;
    if |px| > 0 {
      assert s[|header|] == px[0];
    }
    if |px| > 1 {
      assert s[|header| + 1] == px[1];
    }
  }

  /** The range checks, the separator step and the fread, on the bytes `px` that follow a header. */
  lemma DecodePixelsAfter(header: seq<byte>, px: seq<byte>, w: int, h: int, m: int)
    ensures DecodePixels(header + px, Header(w, h, m, |header|)) ==
      if w <= 0 || h <= 0 || m <= 0 || m > 255 then Failed(BadHeaderValue)
      else
        var k := SkipSeparator(px, 0);
        if |px| - k < w * h * 3 then Failed(TruncatedData)
        else Decoded(PpmImage(w, h, m, 3, w * 3, px[k..k + w * h * 3]))
  {
    SkipSeparatorAfter(header, px);
    var k, n := SkipSeparator(px, 0), w * h * 3;
    if 0 < w && 0 < h && 0 < m <= 255 && |px| - k >= n {
      assert (header + px)[|header| + k..|header| + k + n] == px[k..k + n];
    }
  }

  /**
   * read_ppm on a file made of a header written by `fprintf` and the bytes
   * `px`: the magic must be "P6", the numbers must be in range, then up to
   * two bytes of `px` go to the separator step and the image is the next
   * width * height * 3 bytes.
   */
  lemma DecodeNetpbmFile(magic: seq<byte>, w: i32, h: i32, m: i32, px: seq<byte>)
    requires 1 <= |magic| < TokenBufferSize - 1 && AllTokenBytes(magic)
    ensures DecodePpm(NetpbmText(magic, w, h, m, px)) ==
      if CString(magic) != MagicP6 then Failed(BadMagic)
      else if w <= 0 || h <= 0 || m <= 0 || m > 255 then Failed(BadHeaderValue)
      else
        var k := SkipSeparator(px, 0);
        if |px| - k < w * h * 3 then Failed(TruncatedData)
        else Decoded(PpmImage(w, h, m, 3, w * 3, px[k..k + w * h * 3]))
  {
    var header := NetpbmHeader(magic, w, h, m);
    ParseNetpbmHeader(magic, w, h, m, px);
    NetpbmHeaderThen(magic, w, h, m, px);
    if CString(magic) == MagicP6 {
      DecodePixelsAfter(header, px, w, h, m);
    }
  }

  /** What the range checks, the separator step and the fread give on exactly width * height * 3 bytes `px`. */
  lemma DecodeExactPixels(w: i32, h: i32, m: i32, px: seq<byte>)
    requires 0 < w && 0 < h && 0 < m <= 255 && |px| == w * h * 3
    ensures |px| > 0
    ensures
      (var k := SkipSeparator(px, 0);
       if |px| - k < w * h * 3 then Failed(TruncatedData)
       else Decoded(PpmImage(w, h, m, 3, w * 3, px[k..k + w * h * 3])))
      ==
      if px[0] == TAB || px[0] == LF || px[0] == CR || px[0] == SP then Failed(TruncatedData)
      else Decoded(PpmImage(w, h, m, 3, w * 3, px))
  {
    assert w * h > 0 by {
      assert w * h >= w by {
        assert w * h == w * (h - 1) + w;
      }
    }
    assert px[0..|px|] == px;
  }

  /**
   * The separator quirk: a header and exactly width * height * 3 pixel bytes
   * read back as that image exactly when the first pixel byte is not one the
   * separator step swallows (tab, line feed, carriage return or space);
   * otherwise the fread comes up short.
   */
  lemma PpmRoundTrip(w: i32, h: i32, m: i32, px: seq<byte>)
    requires 0 < w && 0 < h && 0 < m <= 255 && |px| == w * h * 3
    ensures |px| > 0
    ensures DecodePpm(NetpbmText(MagicP6, w, h, m, px)) ==
      if px[0] == TAB || px[0] == LF || px[0] == CR || px[0] == SP then Failed(TruncatedData)
      else Decoded(PpmImage(w, h, m, 3, w * 3, px))
  {
    CStringOfNoNul(MagicP6);
    DecodeNetpbmFile(MagicP6, w, h, m, px);
    DecodeExactPixels(w, h, m, px);
  }

  /** read_ppm refuses what write_pgm writes: the magic is "P5". */
  lemma DecodePpmRejectsPgm(width: i32, height: i32, maxval: i32, data: seq<byte>, stride: nat)
    requires 0 <= width && RowsFit(|data|, stride, width, height)
    ensures DecodePpm(PgmFile(width, height, maxval, data, stride)) == Failed(BadMagic)
  {
    var rows := PgmRows(data, stride, width, if height < 0 then 0 else height);
    NetpbmHeaderThen(MagicP5, width, height, maxval, rows);
    CStringOfNoNul(MagicP5);
    DecodeNetpbmFile(MagicP5, width, height, maxval, rows);
  }
}
