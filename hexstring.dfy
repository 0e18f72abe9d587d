/**
 * `read_hexstring`: decoding a user-supplied layer-2 header such as
 * `"aa,bb,1,ff"` into a caller's fixed-capacity byte buffer.
 *
 * The specification is written over the list of non-empty tokens of the
 * description (`Strtok.Tokens`): `ValueAfter` is what the `value` variable
 * holds after each token is scanned, `DecodeResult` is the outcome of the
 * call and `Expected` the buffer it leaves behind.
 */
module HexString {
  import opened CStrings
  import opened HexScan
  import opened Strtok
  import opened Alloc

  /** The largest C `int`: the capacity, the byte count and the result are `int`s. */
  const INT_MAX: int := 0x7fff_ffff

  /** The two ways the decoder ends the process (`errx`). */
  datatype Failure =
    | NonPositiveCapacity            // the capacity is zero or negative
    | InvalidHexByte(token: seq<char>) // this token's value is above 0xff

  /** A fatal exit, or the count the function returns. */
  datatype Outcome = Fatal(failure: Failure) | Count(n: int)

  function Min(a: int, b: int): int {
    if a <= b then a else b
  }

  /** What the `%x` conversion reads from each token, in order. */
  function Scans(toks: seq<seq<char>>): (r: seq<Option<nat>>)
    ensures |r| == |toks|
  {
    if toks == [] then [] else Scans(toks[..|toks| - 1]) + [ScanHex(toks[|toks| - 1])]
  }

  lemma {:induction false} ScansAt(toks: seq<seq<char>>, k: nat)
    requires k < |toks|
    ensures Scans(toks)[k] == ScanHex(toks[k])
  {
    if k < |toks| - 1 {
      ScansAt(toks[..|toks| - 1], k);
    }
  }

  /**
   * The `unsigned int value` after the `%x` scan of token `k`; `v0` is
   * whatever the uninitialised variable held before the first scan.
   */
  function ValueAfter(toks: seq<seq<char>>, v0: nat, k: nat): nat
    requires k < |toks|
    decreases k
  {
    Assigned(Scans(toks)[k], if k == 0 then v0 else ValueAfter(toks, v0, k - 1))
  }

  /** Scanning token `k` into the value the previous tokens left gives ValueAfter. */
  lemma ScanNext(toks: seq<seq<char>>, v0: nat, k: nat, value: nat)
    requires k < |toks|
    requires value == if k == 0 then v0 else ValueAfter(toks, v0, k - 1)
    ensures ScanInto(toks[k], value) == ValueAfter(toks, v0, k)
  {
    ScansAt(toks, k);
  }

  /** The first of the first `m` tokens whose value is above 0xff, or `m` if none is. */
  function FirstOver(toks: seq<seq<char>>, v0: nat, m: nat): (r: nat)
    requires m <= |toks|
    ensures r <= m
  {
    if m == 0 then 0
    else
      var r := FirstOver(toks, v0, m - 1);
      if r < m - 1 || ValueAfter(toks, v0, m - 1) > 0xff then r else m
  }

  /** Every token before FirstOver is a byte, and the one it names is not. */
  lemma {:induction false} FirstOverSpec(toks: seq<seq<char>>, v0: nat, m: nat)
    requires m <= |toks|
    ensures forall k :: 0 <= k < FirstOver(toks, v0, m) ==> ValueAfter(toks, v0, k) <= 0xff
    ensures FirstOver(toks, v0, m) < m ==> ValueAfter(toks, v0, FirstOver(toks, v0, m)) > 0xff
  {
    if m > 0 {
      FirstOverSpec(toks, v0, m - 1);
    }
  }

  /** FirstOver is the only index with its two properties. */
  lemma {:induction false} FirstOverUnique(toks: seq<seq<char>>, v0: nat, m: nat, k: nat)
    requires k <= m <= |toks|
    requires forall j :: 0 <= j < k ==> ValueAfter(toks, v0, j) <= 0xff
    requires k < m ==> ValueAfter(toks, v0, k) > 0xff
    ensures FirstOver(toks, v0, m) == k
  {
    if m > 0 {
      if k == m {
        FirstOverUnique(toks, v0, m - 1, m - 1);
      } else {
        FirstOverUnique(toks, v0, m - 1, k);
      }
    }
  }

  /**
   * What `read_hexstring` does with the tokens `toks` of its description
   * and a capacity `hexlen`: the capacity is checked first, then tokens
   * are scanned in order while there is room for them; the first token
   * over 0xff is fatal, and a token beyond the capacity ends the call with
   * `hexlen + 1`.  (With a positive capacity the source needs a token.)
   */
  function DecodeResult(toks: seq<seq<char>>, hexlen: int, v0: nat): Outcome
    requires hexlen > 0 ==> toks != []
  {
    if hexlen <= 0 then Fatal(NonPositiveCapacity)
    else
      var m := Min(|toks|, hexlen);
      var stop := FirstOver(toks, v0, m);
      if stop < m then Fatal(InvalidHexByte(toks[stop]))
      else if |toks| > hexlen then Count(hexlen + 1)
      else Count(|toks|)
  }

  /**
   * The outcome in terms of the tokens: the capacity error exactly when
   * `hexlen <= 0`; a count exactly when every token there is room for is a
   * byte, the count being the number of tokens, or `hexlen + 1` when there
   * are more tokens than room; otherwise the first token over 0xff is the
   * one reported.
   */
  lemma DecodeResultSpec(toks: seq<seq<char>>, hexlen: int, v0: nat)
    requires hexlen > 0 ==> toks != []
    ensures var r := DecodeResult(toks, hexlen, v0);
      && (r == Fatal(NonPositiveCapacity) <==> hexlen <= 0)
      && (r.Count? <==> hexlen > 0 && forall k :: 0 <= k < Min(|toks|, hexlen) ==> ValueAfter(toks, v0, k) <= 0xff)
      && (r.Count? ==> 1 <= r.n <= hexlen + 1)
      && (r.Count? ==> (r.n > hexlen <==> |toks| > hexlen))
      && (r.Count? && |toks| <= hexlen ==> r.n == |toks|)
      && (r.Fatal? && r.failure.InvalidHexByte? ==>
            exists k :: 0 <= k < Min(|toks|, hexlen) && toks[k] == r.failure.token
                        && ValueAfter(toks, v0, k) > 0xff
                        && forall j :: 0 <= j < k ==> ValueAfter(toks, v0, j) <= 0xff)
  {
    if hexlen > 0 {
      var m := Min(|toks|, hexlen);
      FirstOverSpec(toks, v0, m);
      var stop := FirstOver(toks, v0, m);
      if stop < m {
        assert ValueAfter(toks, v0, stop) > 0xff;
      }
    }
  }

  /** The number of bytes stored before the call ends. */
  function Stored(toks: seq<seq<char>>, hexlen: int, v0: nat): (w: nat)
    requires hexlen > 0
    ensures w <= hexlen && w <= |toks|
  {
    FirstOver(toks, v0, Min(|toks|, hexlen))
  }

  /** The first `w` token values, each as the `u_char` the source casts it to. */
  function Bytes(toks: seq<seq<char>>, v0: nat, w: nat): (bs: seq<byte>)
    requires w <= |toks|
    ensures |bs| == w
  {
    if w == 0 then [] else Bytes(toks, v0, w - 1) + [(ValueAfter(toks, v0, w - 1) % 0x100) as byte]
  }

  /** `n` zero bytes. */
  function Zeros(n: nat): (z: seq<byte>)
    ensures |z| == n
  {
    seq(n, _ => 0)
  }

  /** A buffer of capacity `hexlen` holding the bytes of the first `w` tokens, then zeros. */
  function Filled(toks: seq<seq<char>>, v0: nat, hexlen: int, w: nat): (buf: seq<byte>)
    requires w <= hexlen && w <= |toks|
    ensures |buf| == hexlen
  {
    Bytes(toks, v0, w) + Zeros(hexlen - w)
  }

  /** The buffer `hex[0..hexlen)` when the call ends. */
  function Expected(toks: seq<seq<char>>, hexlen: int, v0: nat): (buf: seq<byte>)
    requires hexlen > 0
    ensures |buf| == hexlen
  {
    Filled(toks, v0, hexlen, Stored(toks, hexlen, v0))
  }

  /** Byte `k` of Bytes is the value of token `k`. */
  lemma {:induction false} BytesAt(toks: seq<seq<char>>, v0: nat, w: nat, k: nat)
    requires k < w <= |toks|
    ensures Bytes(toks, v0, w)[k] as nat == ValueAfter(toks, v0, k) % 0x100
  {
    if k < w - 1 {
      BytesAt(toks, v0, w - 1, k);
    }
  }

  /**
   * `read_hexstring(l2string, hex, hexlen)`.  `garbage` is the value of
   * the uninitialised `unsigned int value`, which a first token that `%x`
   * cannot convert leaves in place.  The capacity stays below INT_MAX so
   * that the count `hexlen + 1` reported on truncation is an `int`.
   */
  method ReadHexstring(l2string: array<char>, hex: array<byte>, hexlen: int, garbage: nat)
    returns (r: Outcome)
    requires HasNulFrom(l2string[..], 0)
    requires hexlen <= hex.Length && hexlen < INT_MAX
    requires garbage <= UINT_MAX
    requires hexlen > 0 ==> Tokens(CStringFrom(l2string[..], 0)) != []
    modifies hex
    ensures r == DecodeResult(Tokens(CStringFrom(l2string[..], 0)), hexlen, garbage)
    ensures hexlen <= 0 ==> hex[..] == old(hex[..])
    ensures hexlen > 0 ==> hex[..hexlen] == Expected(Tokens(CStringFrom(l2string[..], 0)), hexlen, garbage)
    ensures hexlen > 0 ==> hex[hexlen..] == old(hex[hexlen..])
  {
    ghost var toks := Tokens(CStringFrom(l2string[..], 0));
    var copy := SafeStrdup(l2string);

    if hexlen <= 0 {
      return Fatal(NonPositiveCapacity);
    }

    Memset(hex, hexlen);
    ghost var tail := hex[hexlen..];
    assert hex[..] == hex[..hexlen] + tail;
    r := DecodeTokens(copy, hex, hexlen, garbage, toks, tail);
    assert hex[..hexlen] == (Expected(toks, hexlen, garbage) + tail)[..hexlen];
  }

  /** Zeroing the first `n` bytes of the buffer. */
  method Memset(hex: array<byte>, n: nat)
    requires n <= hex.Length
    modifies hex
    ensures hex[..n] == Zeros(n)
    ensures hex[n..] == old(hex[n..])
  {
    forall k | 0 <= k < n {
      hex[k] := 0;
    }
  }

  /**
   * The first byte of `read_hexstring`, on its private copy of the
   * description, whose tokens are `toks`, into a zeroed buffer.
   */
  method DecodeTokens(copy: array<char>, hex: array<byte>, hexlen: int, garbage: nat, ghost toks: seq<seq<char>>,
                      ghost tail: seq<byte>)
    returns (r: Outcome)
    requires HasNulFrom(copy[..], 0) && Tokens(CStringFrom(copy[..], 0)) == toks && toks != []
    requires 0 < hexlen <= hex.Length
    requires hex[..] == Filled(toks, garbage, hexlen, 0) + tail
    modifies copy, hex
    ensures r == DecodeResult(toks, hexlen, garbage)
    ensures hex[..] == Expected(toks, hexlen, garbage) + tail
  {
    assert toks[0..] == toks;
    ghost var stored := hex[..];
    var l2byte, save := NextToken(copy, 0, toks, 0);
    assert hex[..] == stored;
    ghost var text := copy[..];
    var value;
    value, r := ScanStore(copy, l2byte, save, hex, hexlen, 0, garbage, toks, garbage, tail);
    assert copy[..] == text;
    if value > 0xff {
      return;
    }
    r := DecodeRest(copy, hex, hexlen, garbage, toks, save, value, tail);
  }

  /**
   * The state at the head of the `while` loop of `read_hexstring`:
   * `numbytes + 1` tokens have been read, all of them bytes, the last into
   * `value`; the rest of the description from `save` holds the remaining
   * tokens; and the buffer holds their bytes, then zeros, then the untouched
   * `tail` beyond the capacity.
   */
  ghost predicate Decoding(text: seq<char>, save: nat, buf: seq<byte>, toks: seq<seq<char>>, v0: nat, hexlen: int,
                           tail: seq<byte>, numbytes: nat, value: nat)
  {
    && numbytes < hexlen && numbytes < |toks|
    && HasNulFrom(text, save) && Tokens(CStringFrom(text, save)) == toks[numbytes + 1..]
    && value == ValueAfter(toks, v0, numbytes)
    && (forall k :: 0 <= k <= numbytes ==> ValueAfter(toks, v0, k) <= 0xff)
    && buf == Filled(toks, v0, hexlen, numbytes + 1) + tail
  }

  /**
   * The loop over the remaining bytes, entered with the first byte
   * stored, its value in `value0` and the save offset at `save0`.
   */
  method DecodeRest(copy: array<char>, hex: array<byte>, hexlen: int, garbage: nat, ghost toks: seq<seq<char>>,
                    save0: nat, value0: nat, ghost tail: seq<byte>)
    returns (r: Outcome)
    requires Decoding(copy[..], save0, hex[..], toks, garbage, hexlen, tail, 0, value0)
    modifies copy, hex
    ensures r == DecodeResult(toks, hexlen, garbage)
    ensures hex[..] == Expected(toks, hexlen, garbage) + tail
  {
    var numbytes := 0;
    var value := value0;
    var save := save0;
    var done := false;
    while true
      invariant Decoding(copy[..], save, hex[..], toks, garbage, hexlen, tail, numbytes, value)
      decreases |toks| - numbytes
    {
      done, r, save, numbytes, value := DecodeStep(copy, hex, hexlen, garbage, toks, save, numbytes, value, tail);
      if done {
        return;
      }
    }
  }

  /**
   * One pass of the `while` loop of `read_hexstring`, with `numbytes + 1`
   * bytes stored so far: the next token ends the call (no token left, no
   * room for it, or not a byte) or is stored as byte `numbytes + 1`.
   */
  method DecodeStep(copy: array<char>, hex: array<byte>, hexlen: int, garbage: nat, ghost toks: seq<seq<char>>,
                    save: nat, numbytes: nat, value: nat, ghost tail: seq<byte>)
    returns (done: bool, r: Outcome, save': nat, numbytes': nat, value': nat)
    requires Decoding(copy[..], save, hex[..], toks, garbage, hexlen, tail, numbytes, value)
    modifies copy, hex
    ensures done ==> r == DecodeResult(toks, hexlen, garbage) && hex[..] == Expected(toks, hexlen, garbage) + tail
    ensures !done ==> numbytes' == numbytes + 1
    ensures !done ==> Decoding(copy[..], save', hex[..], toks, garbage, hexlen, tail, numbytes', value')
  {
    ghost var stored := hex[..];
    var l2byte;
    l2byte, save' := NextToken(copy, save, toks, numbytes + 1);
    assert hex[..] == stored;
    value' := value;
    if l2byte == -1 {
      // the loop ends, and the count takes in the byte last stored
      numbytes' := numbytes + 1;
    } else {
      numbytes' := numbytes + 1;
      if numbytes' + 1 <= hexlen {
        ghost var text := copy[..];
        value', r := ScanStore(copy, l2byte, save', hex, hexlen, numbytes', value', toks, garbage, tail);
        assert copy[..] == text;
        done := value' > 0xff;
        return;
      }
      // no room for this token: warn, skip the rest, and report hexlen + 1
      numbytes' := numbytes' + 1;
    }
    DecodeRunsOut(toks, hexlen, garbage, numbytes + 1);
    done, r := true, Count(numbytes');
  }

  method NextToken(copy: array<char>, save: nat, ghost toks: seq<seq<char>>, ghost n: nat) returns (tok: int, next: nat)
    requires HasNulFrom(copy[..], save) && n <= |toks| && Tokens(CStringFrom(copy[..], save)) == toks[n..]
    modifies copy
    ensures HasNulFrom(copy[..], next)
    ensures tok == -1 <==> n == |toks|
    ensures tok != -1 ==> 0 <= tok && HasNulFrom(copy[..], tok) && CStringFrom(copy[..], tok) == toks[n]
    ensures tok != -1 ==> Tokens(CStringFrom(copy[..], next)) == toks[n + 1..]
  {
    tok, next := StrtokR(copy, save);
    if n < |toks| {
      assert toks[n..][1..] == toks[n + 1..];
    }
  }

  /**
   * `sscanf(l2byte, "%x", &value)`, the range check (whose failure is
   * the outcome `r` of the whole call) and, when it passes, the store of
   * byte `w`: the token at `tok` is `toks[w]`, and the bytes
   * of the tokens before it are in place.
   */
  method ScanStore(copy: array<char>, tok: nat, next: nat, hex: array<byte>, hexlen: int, w: nat, value: nat,
                   ghost toks: seq<seq<char>>, ghost v0: nat, ghost tail: seq<byte>) returns (v: nat, r: Outcome)
    requires w < hexlen <= hex.Length && w < |toks|
    requires HasNulFrom(copy[..], tok) && CStringFrom(copy[..], tok) == toks[w]
    requires HasNulFrom(copy[..], next) && Tokens(CStringFrom(copy[..], next)) == toks[w + 1..]
    requires value == if w == 0 then v0 else ValueAfter(toks, v0, w - 1)
    requires forall k :: 0 <= k < w ==> ValueAfter(toks, v0, k) <= 0xff
    requires hex[..] == Filled(toks, v0, hexlen, w) + tail
    modifies hex
    ensures v == ValueAfter(toks, v0, w)
    ensures v > 0xff ==> r == Fatal(InvalidHexByte(CStringFrom(copy[..], tok))) == DecodeResult(toks, hexlen, v0)
    ensures v > 0xff ==> hex[..] == old(hex[..]) == Expected(toks, hexlen, v0) + tail
    ensures v <= 0xff ==> Decoding(copy[..], next, hex[..], toks, v0, hexlen, tail, w, v)
  {
    ScanNext(toks, v0, w, value);
    v := ScanInto(CStringFrom(copy[..], tok), value);
    if v > 0xff {
      // a value above 0xff ends the process, naming the token
      DecodeStops(toks, hexlen, v0, w);
      r := Fatal(InvalidHexByte(CStringFrom(copy[..], tok)));
    } else {
      r := Count(0);
      BytesSoFar(toks, v0, w);
      ghost var text := copy[..];
      StoreByte(hex, hexlen, w, v, toks, v0, tail);
      assert copy[..] == text;
    }
  }

  /** One more token whose value is a byte extends the run of bytes. */
  lemma BytesSoFar(toks: seq<seq<char>>, v0: nat, n: nat)
    requires n < |toks|
    requires forall k :: 0 <= k < n ==> ValueAfter(toks, v0, k) <= 0xff
    requires ValueAfter(toks, v0, n) <= 0xff
    ensures forall k :: 0 <= k <= n ==> ValueAfter(toks, v0, k) <= 0xff
  {
  }

  /** Copying the byte of token `w` to `hex[w]`: it joins the stored prefix. */
  method StoreByte(hex: array<byte>, hexlen: int, w: nat, value: nat, ghost toks: seq<seq<char>>, ghost v0: nat,
                   ghost tail: seq<byte>)
    requires w < hexlen <= hex.Length && w < |toks|
    requires value == ValueAfter(toks, v0, w) <= 0xff
    requires hex[..] == Filled(toks, v0, hexlen, w) + tail
    modifies hex
    ensures hex[..] == Filled(toks, v0, hexlen, w + 1) + tail
  {
    ZerosStore(Bytes(toks, v0, w), value as byte, hexlen - w - 1, tail);
    hex[w] := value as byte;
  }

  /** Overwriting the first of the zeros after `bs` appends a byte to `bs`. */
  lemma ZerosStore(bs: seq<byte>, b: byte, m: nat, tail: seq<byte>)
    ensures (bs + Zeros(m + 1) + tail)[|bs| := b] == (bs + [b]) + Zeros(m) + tail
  {
    assert (bs + Zeros(m + 1) + tail)[|bs| := b] == (bs + [b]) + Zeros(m) + tail;
  }

  /** The call stops at the first bad token `k` when every earlier one was a byte. */
  lemma DecodeStops(toks: seq<seq<char>>, hexlen: int, v0: nat, k: nat)
    requires 0 <= k < hexlen && k < |toks|
    requires forall j :: 0 <= j < k ==> ValueAfter(toks, v0, j) <= 0xff
    requires ValueAfter(toks, v0, k) > 0xff
    ensures DecodeResult(toks, hexlen, v0) == Fatal(InvalidHexByte(toks[k]))
    ensures Expected(toks, hexlen, v0) == Filled(toks, v0, hexlen, k)
  {
    FirstOverUnique(toks, v0, Min(|toks|, hexlen), k);
  }

  /**
   * The call stores every token it has room for when all of them are
   * bytes; `w` is that number of tokens.
   */
  lemma DecodeRunsOut(toks: seq<seq<char>>, hexlen: int, v0: nat, w: nat)
    requires 0 < hexlen && toks != [] && w == Min(|toks|, hexlen)
    requires forall j :: 0 <= j < w ==> ValueAfter(toks, v0, j) <= 0xff
    ensures DecodeResult(toks, hexlen, v0) == Count(if |toks| > hexlen then hexlen + 1 else |toks|)
    ensures Expected(toks, hexlen, v0) == Filled(toks, v0, hexlen, w)
  {
    FirstOverUnique(toks, v0, w, w);
  }

  /** The tokens of a description that spells out `bs`, each byte as `%x` would print it. */
  function Spelled(bs: seq<byte>): (toks: seq<seq<char>>)
    ensures |toks| == |bs|
  {
    seq(|bs|, k requires 0 <= k < |bs| => FormatHex(bs[k]))
  }

  /** Scanning the spelled-out tokens yields the bytes back, whatever the first value was. */
  lemma {:induction false} SpelledValues(bs: seq<byte>, v0: nat, k: nat)
    requires k < |bs|
    ensures ValueAfter(Spelled(bs), v0, k) == bs[k] as nat
  {
    ScansAt(Spelled(bs), k);
    ScanFormatHex(bs[k]);
  }

  /** The first `w` spelled-out tokens are stored as the first `w` bytes. */
  lemma {:induction false} SpelledBytes(bs: seq<byte>, v0: nat, w: nat)
    requires w <= |bs|
    ensures Bytes(Spelled(bs), v0, w) == bs[..w]
  {
    if w > 0 {
      SpelledBytes(bs, v0, w - 1);
      SpelledValues(bs, v0, w - 1);
      assert bs[..w] == bs[..w - 1] + [bs[w - 1]];
    }
  }

  /** Splitting the comma-joined spelling of `bs` gives the spelled tokens back. */
  lemma SpelledTokens(bs: seq<byte>)
    ensures Tokens(Join(Spelled(bs))) == Spelled(bs)
  {
    var toks := Spelled(bs);
    forall k | 0 <= k < |toks|
      ensures IsToken(toks[k])
    {
      assert toks[k] == FormatHex(bs[k]);
    }
    TokensOfJoin(toks);
  }

  /**
   * Round trip: decoding the comma-joined hex spelling of a non-empty
   * `bs` that fits returns `|bs|` and leaves `bs` followed by zeros; one
   * that does not fit returns `hexlen + 1` and leaves its first `hexlen`
   * bytes.
   */
  lemma DecodeSpelled(bs: seq<byte>, hexlen: int, v0: nat)
    requires bs != [] && hexlen > 0
    ensures var toks := Tokens(Join(Spelled(bs)));
      && DecodeResult(toks, hexlen, v0) == Count(if |bs| > hexlen then hexlen + 1 else |bs|)
      && Expected(toks, hexlen, v0) == if |bs| > hexlen then bs[..hexlen] else bs + Zeros(hexlen - |bs|)
  {
    var toks := Spelled(bs);
    SpelledTokens(bs);
    var w := Min(|bs|, hexlen);
    forall j | 0 <= j < w
      ensures ValueAfter(toks, v0, j) <= 0xff
    {
      SpelledValues(bs, v0, j);
    }
    DecodeRunsOut(toks, hexlen, v0, w);
    SpelledBytes(bs, v0, w);
    if |bs| <= hexlen {
      assert bs[..w] == bs;
    }
  }

  /**
   * The buffer left behind, byte by byte: the value of each stored token,
   * in input order, then zeros; a count means every token there was room
   * for was stored, and a bad byte is the token right after the stored ones.
   */
  lemma ExpectedSpec(toks: seq<seq<char>>, hexlen: int, v0: nat)
    requires hexlen > 0 && toks != []
    ensures var w := Stored(toks, hexlen, v0);
      && (forall k :: 0 <= k < w ==> ValueAfter(toks, v0, k) <= 0xff)
      && (forall k :: 0 <= k < hexlen ==>
            Expected(toks, hexlen, v0)[k] as nat == if k < w then ValueAfter(toks, v0, k) else 0)
      && (DecodeResult(toks, hexlen, v0).Count? ==> w == Min(|toks|, hexlen))
      && (DecodeResult(toks, hexlen, v0).Fatal? ==>
            w < Min(|toks|, hexlen) && DecodeResult(toks, hexlen, v0) == Fatal(InvalidHexByte(toks[w])))
  {
    var w := Stored(toks, hexlen, v0);
    FirstOverSpec(toks, v0, Min(|toks|, hexlen));
    forall k | 0 <= k < hexlen
      ensures Expected(toks, hexlen, v0)[k] as nat == if k < w then ValueAfter(toks, v0, k) else 0
    {
      if k < w {
        BytesAt(toks, v0, w, k);
      }
    }
  }

  /** The values of the first `n` tokens depend on those tokens alone. */
  lemma {:induction false} ValueAfterPrefix(toks: seq<seq<char>>, toks': seq<seq<char>>, v0: nat, n: nat)
    requires n <= |toks| && n <= |toks'| && toks[..n] == toks'[..n]
    ensures forall k :: 0 <= k < n ==> ValueAfter(toks, v0, k) == ValueAfter(toks', v0, k)
  {
    if n > 0 {
      ValueAfterPrefix(toks, toks', v0, n - 1);
      assert toks[n - 1] == toks[..n][n - 1] == toks'[n - 1];
      ScansAt(toks, n - 1);
      ScansAt(toks', n - 1);
    }
  }

  /** So are the bytes stored for them. */
  lemma {:induction false} BytesPrefix(toks: seq<seq<char>>, toks': seq<seq<char>>, v0: nat, n: nat)
    requires n <= |toks| && n <= |toks'|
    requires forall k :: 0 <= k < n ==> ValueAfter(toks, v0, k) == ValueAfter(toks', v0, k)
    ensures Bytes(toks, v0, n) == Bytes(toks', v0, n)
  {
    if n > 0 {
      BytesPrefix(toks, toks', v0, n - 1);
    }
  }

  /**
   * Tokens beyond the capacity are never scanned: two descriptions that
   * both overflow `hexlen` and agree on their first `hexlen` tokens give
   * the same outcome and the same buffer, whatever follows.
   */
  lemma OnlyLeadingTokensParsed(toks: seq<seq<char>>, toks': seq<seq<char>>, hexlen: int, v0: nat)
    requires 0 < hexlen < |toks| && hexlen < |toks'|
    requires toks[..hexlen] == toks'[..hexlen]
    ensures DecodeResult(toks, hexlen, v0) == DecodeResult(toks', hexlen, v0)
    ensures Expected(toks, hexlen, v0) == Expected(toks', hexlen, v0)
  {
    ValueAfterPrefix(toks, toks', v0, hexlen);
    FirstOverSpec(toks, v0, hexlen);
    var stop := FirstOver(toks, v0, hexlen);
    FirstOverUnique(toks', v0, hexlen, stop);
    BytesPrefix(toks, toks', v0, stop);
    if stop < hexlen {
      assert toks[stop] == toks[..hexlen][stop] == toks'[stop];
    }
  }

  /**
   * The result of `sscanf` is not checked: a token `%x` cannot convert
   * (no hex digit where the number must start) leaves `value` as the
   * previous token set it, so its byte repeats the previous one.
   */
  lemma NoDigitRepeatsPrevious(toks: seq<seq<char>>, v0: nat, k: nat)
    requires 0 < k < |toks| && ScanHex(toks[k]).None?
    ensures ValueAfter(toks, v0, k) == ValueAfter(toks, v0, k - 1)
  {
    ScansAt(toks, k);
  }

  /** For instance `"aa,zz"` fills a two-byte buffer with 0xaa twice. */
  lemma NonHexTokenRepeats(l2string: seq<char>, v0: nat)
    requires l2string == "aa,zz"
    ensures DecodeResult(Tokens(l2string), 2, v0) == Count(2)
    ensures Expected(Tokens(l2string), 2, v0) == [0xaa, 0xaa]
  {
    var toks := ["aa", "zz"];
    TwoTokens(l2string, toks);
    RepeatedValues(toks, v0);
    DecodeRunsOut(toks, 2, v0, 2);
    RepeatedBytes(toks, v0);
  }

  /** `"aa,zz"` holds the two tokens. */
  lemma TwoTokens(l2string: seq<char>, toks: seq<seq<char>>)
    requires l2string == "aa,zz" && toks == ["aa", "zz"]
    ensures Tokens(l2string) == toks
  {
    assert IsToken(toks[0]) && IsToken(toks[1]);
    TokensOfJoin(toks);
    assert Join(toks) == "aa,zz";
  }

  /** The values scanned from `"aa"` and `"zz"`. */
  lemma RepeatedValues(toks: seq<seq<char>>, v0: nat)
    requires toks == ["aa", "zz"]
    ensures ValueAfter(toks, v0, 0) == ValueAfter(toks, v0, 1) == 0xaa
  {
    ScanFormatHex(0xaa);
    assert FormatHex(0xaa) == "aa";
    ScansAt(toks, 0);
    assert !IsHexDigit('z');
    NoDigitRepeatsPrevious(toks, v0, 1);
  }

  /** ... and the two bytes they leave in the buffer. */
  lemma RepeatedBytes(toks: seq<seq<char>>, v0: nat)
    requires |toks| == 2 && ValueAfter(toks, v0, 0) == ValueAfter(toks, v0, 1) == 0xaa
    ensures Filled(toks, v0, 2, 2) == [0xaa, 0xaa]
  {
    var bs := Bytes(toks, v0, 2);
    BytesAt(toks, v0, 2, 0);
    BytesAt(toks, v0, 2, 1);
    assert bs[0] == 0xaa && bs[1] == 0xaa;
    assert Filled(toks, v0, 2, 2) == bs + [];
  }
}
