/**
 * Splitting a layer-2 description on commas, as `strtok_r(s, ",", &save)`
 * does it: empty tokens (from leading, trailing or repeated commas) are
 * skipped, and each token found is cut out of the buffer by overwriting
 * the comma that ends it with a NUL.
 */
module Strtok {
  import opened CStrings

  /** Length of the leading run of non-comma characters (`strcspn(s, ",")`). */
  function RunLen(s: seq<char>): (n: nat)
    ensures n <= |s|
    ensures forall k :: 0 <= k < n ==> s[k] != ','
    ensures n < |s| ==> s[n] == ','
  {
    if s == [] || s[0] == ',' then 0 else 1 + RunLen(s[1..])
  }

  /** The non-empty comma-separated tokens of `s`, in order. */
  function Tokens(s: seq<char>): seq<seq<char>>
    decreases |s|
  {
    if s == [] then []
    else if s[0] == ',' then Tokens(s[1..])
    else
      var n := RunLen(s);
      [s[..n]] + Tokens(s[n..])
  }

  /** Tokens joined back together with one comma between each two. */
  function Join(ts: seq<seq<char>>): seq<char> {
    if ts == [] then []
    else if |ts| == 1 then ts[0]
    else ts[0] + [','] + Join(ts[1..])
  }

  /** A token is a non-empty run without commas. */
  predicate IsToken(t: seq<char>) {
    t != [] && ',' !in t
  }

  /** A token followed by nothing or by a comma is split off on its own. */
  lemma TokensOfTokenThen(t: seq<char>, rest: seq<char>)
    requires IsToken(t)
    requires rest == [] || rest[0] == ','
    ensures Tokens(t + rest) == [t] + Tokens(rest)
  {
    var s := t + rest;
    assert s[0] == t[0] != ',';
    assert forall k :: 0 <= k < |t| ==> s[k] == t[k];
    assert forall k :: 0 <= k < |t| ==> s[k] != ',' by {
      forall k | 0 <= k < |t| ensures s[k] != ',' {
        assert t[k] in t;
      }
    }
    assert |t| < |s| ==> s[|t|] == ',';
    var n := RunLen(s);
    assert n == |t|;
    assert s[..n] == t && s[n..] == rest;
  }

  /**
   * A comma separates: what is before it and what is after it tokenise
   * independently.  Empty tokens therefore contribute nothing.
   */
  lemma {:induction false} TokensSplit(a: seq<char>, b: seq<char>)
    ensures Tokens(a + [','] + b) == Tokens(a) + Tokens(b)
    decreases |a|
  {
    var s := a + [','] + b;
    if a == [] {
      assert s[1..] == b;
    } else if a[0] == ',' {
      assert s[1..] == a[1..] + [','] + b;
      TokensSplit(a[1..], b);
    } else {
      var n := RunLen(a);
      assert forall k :: 0 <= k < |a| ==> s[k] == a[k];
      assert s[|a|] == ',';
      assert RunLen(s) == n;
      assert s[..n] == a[..n];
      assert s[n..] == a[n..] + [','] + b;
      TokensSplit(a[n..], b);
    }
  }

  /** Joining tokens and splitting them again gives the tokens back. */
  lemma {:induction false} TokensOfJoin(ts: seq<seq<char>>)
    requires forall k :: 0 <= k < |ts| ==> IsToken(ts[k])
    ensures Tokens(Join(ts)) == ts
  {
    if ts == [] {
    } else if |ts| == 1 {
      TokensOfTokenThen(ts[0], []);
      assert ts[0] + [] == ts[0];
    } else {
      TokensSplit(ts[0], Join(ts[1..]));
      TokensOfTokenThen(ts[0], []);
      assert ts[0] + [] == ts[0];
      TokensOfJoin(ts[1..]);
    }
  }

  /**
   * Empty tokens are skipped: a leading comma, a trailing comma and a
   * doubled comma change nothing.
   */
  lemma EmptyTokensSkipped(a: seq<char>, b: seq<char>)
    ensures Tokens([','] + a) == Tokens(a)
    ensures Tokens(a + [',']) == Tokens(a)
    ensures Tokens(a + [',', ','] + b) == Tokens(a + [','] + b)
  {
    TokensSplit([], a);
    assert [] + [','] + a == [','] + a;
    TokensSplit(a, []);
    assert a + [','] + [] == a + [','];
    TokensSplit(a + [','], b);
    assert a + [','] + [','] + b == a + [',', ','] + b;
    TokensSplit(a, b);
  }

  /** The token that starts at `p` runs to `end`, the first comma or NUL. */
  lemma FirstToken(a: seq<char>, p: nat, end: nat, len: nat)
    requires p < end <= len <= |a|
    requires forall k :: p <= k < end ==> a[k] != ','
    requires end == len || a[end] == ','
    ensures Tokens(a[p..len]) == [a[p..end]] + Tokens(a[end..len])
  {
    var s := a[p..len];
    assert s[0] == a[p];
    var n := RunLen(s);
    assert n == end - p;
    assert s[..n] == a[p..end] && s[n..] == a[end..len];
  }

  /**
   * One `strtok_r(..., ",", &save)` call, as a relation between the buffer
   * `a` before it and `b` after it: with `ts` the tokens left in the
   * string at `save`, the call returns NULL (-1) exactly when there are
   * none; otherwise it returns the offset `tok` of a C string that is the
   * first of them, and leaves at the new save offset `next` a string
   * holding the rest.
   */
  predicate StrtokStep(a: seq<char>, b: seq<char>, save: nat, tok: int, next: nat)
    requires HasNulFrom(a, save)
  {
    var ts := Tokens(CStringFrom(a, save));
    && HasNulFrom(b, next)
    && (ts == [] <==> tok == -1)
    && (ts == [] ==> b == a && Tokens(CStringFrom(b, next)) == [])
    && (ts != [] ==> save <= tok < next && HasNulFrom(b, tok)
                     && CStringFrom(b, tok) == ts[0]
                     && Tokens(CStringFrom(b, next)) == ts[1..])
  }

  /**
   * What a `strtok_r` call writes: when it returns a token that ends at a
   * comma (the character just before the new save offset), a NUL over that
   * comma; otherwise nothing.
   */
  predicate StrtokWrites(a: seq<char>, b: seq<char>, tok: int, next: nat)
  {
    if tok != -1 && 1 <= next <= |a| && a[next - 1] == ','
    then b == a[next - 1 := '\0']
    else b == a
  }

  /** strtok_r's view when only commas are left before the terminator. */
  lemma NoToken(a: seq<char>, save: nat, p: nat)
    requires HasNulFrom(a, save) && save <= p == NulIndex(a, save)
    requires Tokens(a[p..p]) == Tokens(CStringFrom(a, save))
    ensures StrtokStep(a, a, save, -1, p)
  {
    NulIndexUnique(a, p, p);
  }

  /** strtok_r's view when the token found ends at the terminator. */
  lemma LastToken(a: seq<char>, save: nat, p: nat, end: nat)
    requires HasNulFrom(a, save) && save <= p < end == NulIndex(a, save)
    requires forall k :: p <= k < end ==> a[k] != ','
    requires Tokens(a[p..end]) == Tokens(CStringFrom(a, save))
    ensures StrtokStep(a, a, save, p, end)
  {
    FirstToken(a, p, end, end);
    NulIndexUnique(a, p, end);
    NulIndexUnique(a, end, end);
  }

  /** strtok_r's view when the token found ends at a comma, cut with a NUL. */
  lemma CutToken(a: seq<char>, save: nat, p: nat, end: nat)
    requires HasNulFrom(a, save) && save <= p < end < NulIndex(a, save)
    requires forall k :: p <= k < end ==> a[k] != ','
    requires a[end] == ','
    requires Tokens(a[p..NulIndex(a, save)]) == Tokens(CStringFrom(a, save))
    ensures StrtokStep(a, a[end := '\0'], save, p, end + 1)
  {
    var len := NulIndex(a, save);
    FirstToken(a, p, end, len);
    assert Tokens(a[end..len]) == Tokens(a[end + 1..len]) by {
      assert a[end..len][1..] == a[end + 1..len];
    }
    CutHead(a, p, end);
    CutTail(a, save, end);
  }

  /** After the cut, the string at `p` is the token. */
  lemma CutHead(a: seq<char>, p: nat, end: nat)
    requires p <= end < |a|
    requires forall k :: p <= k < end ==> a[k] != '\0'
    ensures HasNulFrom(a[end := '\0'], p) && CStringFrom(a[end := '\0'], p) == a[p..end]
  {
    var b := a[end := '\0'];
    NulIndexUnique(b, p, end);
    assert b[p..end] == a[p..end];
  }

  /** After the cut, the string just past it is what followed the comma. */
  lemma CutTail(a: seq<char>, save: nat, end: nat)
    requires HasNulFrom(a, save) && save <= end < NulIndex(a, save)
    ensures HasNulFrom(a[end := '\0'], end + 1)
    ensures CStringFrom(a[end := '\0'], end + 1) == a[end + 1..NulIndex(a, save)]
  {
    NulIndexInside(a, save, end + 1);
    CStringFromAgree(a, a[end := '\0'], end + 1);
  }

  /** `p0 + strspn(buf + p0, ",")`: the first non-comma at or after `p0`. */
  method Strspn(buf: array<char>, p0: nat) returns (p: nat)
    requires HasNulFrom(buf[..], p0)
    ensures p0 <= p <= NulIndex(buf[..], p0) && buf[p] != ','
    ensures forall k :: p0 <= k < p ==> buf[k] == ','
  {
    p := p0;
    while buf[p] == ','
      invariant p0 <= p <= NulIndex(buf[..], p0)
      invariant forall k :: p0 <= k < p ==> buf[k] == ','
      decreases NulIndex(buf[..], p0) - p
    {
      p := p + 1;
    }
  }

  /** `p0 + strcspn(buf + p0, ",")`: the first comma or NUL at or after `p0`. */
  method Strcspn(buf: array<char>, p0: nat) returns (p: nat)
    requires HasNulFrom(buf[..], p0)
    ensures p0 <= p <= NulIndex(buf[..], p0)
    ensures p == NulIndex(buf[..], p0) || buf[p] == ','
    ensures forall k :: p0 <= k < p ==> buf[k] != ','
  {
    p := p0;
    while buf[p] != '\0' && buf[p] != ','
      invariant p0 <= p <= NulIndex(buf[..], p0)
      invariant forall k :: p0 <= k < p ==> buf[k] != ','
      decreases NulIndex(buf[..], p0) - p
    {
      p := p + 1;
    }
  }

  /** Leading commas contribute no token. */
  lemma {:induction false} SkippedCommas(a: seq<char>, p0: nat, p: nat, len: nat)
    requires p0 <= p <= len <= |a|
    requires forall k :: p0 <= k < p ==> a[k] == ','
    ensures Tokens(a[p0..len]) == Tokens(a[p..len])
    decreases p - p0
  {
    if p0 < p {
      assert a[p0..len][1..] == a[p0 + 1..len];
      SkippedCommas(a, p0 + 1, p, len);
    }
  }

  /**
   * One call of `strtok_r(NULL, ",", &save)` with the save pointer at
   * offset `save` (the first call, on the string itself, is the same with
   * `save == 0`).  Returns the offset of the token found, or -1 for NULL,
   * and the new save offset.  The only write is the NUL over the comma
   * that ends the token returned, just before the new save offset.
   */
  method StrtokR(buf: array<char>, save: nat) returns (tok: int, next: nat)
    requires HasNulFrom(buf[..], save)
    modifies buf
    ensures StrtokStep(old(buf[..]), buf[..], save, tok, next)
    ensures StrtokWrites(old(buf[..]), buf[..], tok, next)
  {
    ghost var a := buf[..];
    ghost var len := NulIndex(a, save);
    var p := Strspn(buf, save);
    SkippedCommas(a, save, p, len);
    if buf[p] == '\0' {
      NoToken(a, save, p);
      return -1, p;
    }
    NulIndexInside(a, save, p);
    tok, next := TokenAt(buf, save, p);
  }

  /** The rest of a `strtok_r` call once a token is known to start at `p`. */
  method TokenAt(buf: array<char>, save: nat, p: nat) returns (tok: int, next: nat)
    requires HasNulFrom(buf[..], save) && save <= p < NulIndex(buf[..], save)
    requires buf[p] != ','
    requires Tokens(buf[p..NulIndex(buf[..], save)]) == Tokens(CStringFrom(buf[..], save))
    modifies buf
    ensures tok == p
    ensures StrtokStep(old(buf[..]), buf[..], save, tok, next)
    ensures StrtokWrites(old(buf[..]), buf[..], tok, next)
  {
    ghost var a := buf[..];
    var end := Strcspn(buf, p);
    if buf[end] == '\0' {
      LastToken(a, save, p, end);
      assert a[end - 1] != ',';
      return p, end;
    }
    CutToken(a, save, p, end);
    buf[end] := '\0';
    return p, end + 1;
  }
}
