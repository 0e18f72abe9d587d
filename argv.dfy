/**
 * `argv_create(p, argc, argv)`: splitting a command line held in a
 * writable C string into white-space separated words, in place.  Each
 * run of white space before a word is overwritten with NULs, `argv`
 * receives a pointer to the start of each word, at most `argc - 1` of
 * them, and is terminated by a NULL pointer.
 *
 * Pointers into the buffer are modelled as offsets into `buf`, and the
 * NULL pointer as -1.  The specification functions work on the text of
 * the string (the characters before its terminator); since the string
 * starts at offset 0, offsets into the text are offsets into the buffer.
 */
module Argv {
  import opened CStrings

  const NULL: int := -1

  function Min(a: int, b: int): int {
    if a <= b then a else b
  }

  /** How many words `argv_create` looks for: `argc - 1`, leaving a slot for NULL. */
  function Slots(argc: int): (n: nat)
    ensures argc >= 1 ==> n == argc - 1
  {
    if argc - 1 > 0 then argc - 1 else 0
  }

  /** The first offset at or after `p` that is the end of `t` or not white space. */
  function SkipBlank(t: seq<char>, p: nat): (q: nat)
    requires p <= |t|
    ensures p <= q <= |t|
    ensures q < |t| ==> !IsSpace(t[q])
    ensures forall k :: p <= k < q ==> IsSpace(t[k])
    decreases |t| - p
  {
    if p < |t| && IsSpace(t[p]) then SkipBlank(t, p + 1) else p
  }

  /** The first offset at or after `p` that is the end of `t` or white space. */
  function WordEnd(t: seq<char>, p: nat): (e: nat)
    requires p <= |t|
    ensures p <= e <= |t|
    ensures e < |t| ==> IsSpace(t[e])
    ensures forall k :: p <= k < e ==> !IsSpace(t[k])
    decreases |t| - p
  {
    if p < |t| && !IsSpace(t[p]) then WordEnd(t, p + 1) else p
  }

  /** The offsets of the words the loop of `argv_create` finds from `p` in `n` passes. */
  function Starts(t: seq<char>, p: nat, n: nat): (st: seq<int>)
    requires p <= |t|
    ensures |st| <= n
    decreases n
  {
    if n == 0 then []
    else
      var q := SkipBlank(t, p);
      if q == |t| then [] else [q] + Starts(t, WordEnd(t, q), n - 1)
  }

  /** Where the loop of `argv_create` leaves `p`: the offset the final NUL is written at. */
  function Stop(t: seq<char>, p: nat, n: nat): (q: nat)
    requires p <= |t|
    ensures p <= q <= |t|
    decreases n
  {
    if n == 0 then p
    else
      var q := SkipBlank(t, p);
      if q == |t| then q else Stop(t, WordEnd(t, q), n - 1)
  }

  /** Character `k` of `s` once the white space before offset `p` has been overwritten. */
  function Blanked(s: seq<char>, p: nat, k: nat): char
    requires k < |s|
  {
    if k < p && IsSpace(s[k]) then '\0' else s[k]
  }

  /** `b` is `s` with every white-space character before `p` replaced by NUL. */
  ghost predicate BlankedTo(s: seq<char>, b: seq<char>, p: nat) {
    |b| == |s| && forall k :: 0 <= k < |s| ==> b[k] == Blanked(s, p, k)
  }

  /**
   * The buffer `argv_create` leaves behind when its loop stops at `stop`:
   * white space before `stop` is NUL, `stop` itself is NUL, everything
   * else is as it was.
   */
  ghost predicate Cut(s: seq<char>, b: seq<char>, stop: nat) {
    |b| == |s| && stop < |s| && forall k :: 0 <= k < |s| ==> b[k] == if k == stop then '\0' else Blanked(s, stop, k)
  }

  /** `t` is the text of the C string at the start of `s`. */
  ghost predicate TextOf(s: seq<char>, t: seq<char>) {
    |t| < |s| && s[|t|] == '\0' && forall k :: 0 <= k < |t| ==> s[k] == t[k] && t[k] != '\0'
  }

  lemma TextOfCString(s: seq<char>)
    requires HasNulFrom(s, 0)
    ensures TextOf(s, CStringFrom(s, 0))
  {
  }

  /**
   * The white-space separated words of `t` from offset `p` on, in order:
   * white space is passed over, and each word is a longest run of
   * characters that are not white space.
   */
  function WordsFrom(t: seq<char>, p: nat): seq<seq<char>>
    requires p <= |t|
    decreases |t| - p
  {
    if p == |t| then []
    else if IsSpace(t[p]) then WordsFrom(t, p + 1)
    else [t[p..WordEnd(t, p)]] + WordsFrom(t, WordEnd(t, p))
  }

  /** The words of a whole string. */
  function Words(t: seq<char>): seq<seq<char>> {
    WordsFrom(t, 0)
  }

  /** Every word is a non-empty run of characters that are not white space. */
  lemma {:induction false} WordsAreWords(t: seq<char>, p: nat)
    requires p <= |t|
    ensures forall j :: 0 <= j < |WordsFrom(t, p)| ==>
              WordsFrom(t, p)[j] != [] && forall k :: 0 <= k < |WordsFrom(t, p)[j]| ==> !IsSpace(WordsFrom(t, p)[j][k])
    decreases |t| - p
  {
    if p == |t| {
    } else if IsSpace(t[p]) {
      WordsAreWords(t, p + 1);
    } else {
      var e := WordEnd(t, p);
      WordsAreWords(t, e);
      var w := t[p..e];
      assert WordsFrom(t, p) == [w] + WordsFrom(t, e);
      assert forall k :: 0 <= k < |w| ==> w[k] == t[p + k];
    }
  }

  /** White space in front of the rest of the string adds no word. */
  lemma {:induction false} WordsSkipBlank(t: seq<char>, p: nat)
    requires p <= |t|
    ensures WordsFrom(t, p) == WordsFrom(t, SkipBlank(t, p))
    decreases |t| - p
  {
    if p < |t| && IsSpace(t[p]) {
      WordsSkipBlank(t, p + 1);
    }
  }

  /** The loop finds as many words as there are, but no more than `n`. */
  lemma {:induction false} StartsCount(t: seq<char>, p: nat, n: nat)
    requires p <= |t|
    ensures |Starts(t, p, n)| == Min(n, |WordsFrom(t, p)|)
    decreases n
  {
    if n > 0 {
      WordsSkipBlank(t, p);
      var q := SkipBlank(t, p);
      if q < |t| {
        StartsCount(t, WordEnd(t, q), n - 1);
      }
    }
  }

  /**
   * Offset `j` the loop finds from `p` in `n` passes is where word `j` of
   * the text from `p` starts; that word ends no later than the stop.
   */
  lemma {:induction false} StartsAt(t: seq<char>, p: nat, n: nat, j: nat)
    requires p <= |t| && j < |Starts(t, p, n)|
    ensures var q := Starts(t, p, n)[j];
      && p <= q < |t| && WordEnd(t, q) <= Stop(t, p, n)
      && !IsSpace(t[q]) && (q == p || IsSpace(t[q - 1]))
      && j < |WordsFrom(t, p)| && t[q..WordEnd(t, q)] == WordsFrom(t, p)[j]
    decreases n
  {
    var q := SkipBlank(t, p);
    var e := WordEnd(t, q);
    assert Starts(t, p, n) == [q] + Starts(t, e, n - 1);
    WordsSkipBlank(t, p);
    if j > 0 {
      StartsAt(t, e, n - 1, j - 1);
    }
  }

  /** The offsets the loop stores strictly increase. */
  lemma {:induction false} StartsIncrease(t: seq<char>, p: nat, n: nat)
    requires p <= |t|
    ensures forall j, k :: 0 <= j < k < |Starts(t, p, n)| ==> Starts(t, p, n)[j] < Starts(t, p, n)[k]
    decreases n
  {
    var q := SkipBlank(t, p);
    if n > 0 && q < |t| {
      var e := WordEnd(t, q);
      var rest := Starts(t, e, n - 1);
      assert Starts(t, p, n) == [q] + rest;
      StartsIncrease(t, e, n - 1);
      forall i | 0 <= i < |rest|
        ensures q < rest[i]
      {
        StartsAt(t, e, n - 1, i);
      }
    }
  }

  /** A word that ends by the stop survives the cut as a C string of its own. */
  lemma WordCut(s: seq<char>, t: seq<char>, b: seq<char>, q: nat, stop: nat)
    requires TextOf(s, t) && Cut(s, b, stop)
    requires q < |t| && WordEnd(t, q) <= stop <= |t|
    ensures HasNulFrom(b, q) && CStringFrom(b, q) == t[q..WordEnd(t, q)]
  {
    var e := WordEnd(t, q);
    assert b[e] == if e == stop then '\0' else Blanked(s, stop, e);
    forall k | q <= k < e
      ensures b[k] == t[k] && b[k] != '\0'
    {
      assert b[k] == Blanked(s, stop, k);
    }
    SameSlice(b, t, q, e);
    NulIndexUnique(b, q, e);
  }

  lemma SameSlice(a: seq<char>, b: seq<char>, i: nat, j: nat)
    requires i <= j <= |a| && j <= |b|
    requires forall k :: i <= k < j ==> a[k] == b[k]
    ensures a[i..j] == b[i..j]
  {
  }

  /**
   * In the buffer `argv_create` leaves behind, the C string at each
   * offset it stored in `argv` is the corresponding word of the original
   * string, and the number of offsets is the number of words, capped at
   * the slots available.
   */
  lemma ArgvWords(s: seq<char>, b: seq<char>, n: nat)
    requires HasNulFrom(s, 0) && Cut(s, b, Stop(CStringFrom(s, 0), 0, n))
    ensures var t := CStringFrom(s, 0);
      |Starts(t, 0, n)| == Min(n, |Words(t)|)
    ensures var t := CStringFrom(s, 0);
      forall j :: 0 <= j < |Starts(t, 0, n)| ==>
        && 0 <= Starts(t, 0, n)[j] && HasNulFrom(b, Starts(t, 0, n)[j])
        && CStringFrom(b, Starts(t, 0, n)[j]) == Words(t)[j]
  {
    var t := CStringFrom(s, 0);
    TextOfCString(s);
    StartsCount(t, 0, n);
    var st := Starts(t, 0, n);
    forall j | 0 <= j < |st|
      ensures 0 <= st[j] && HasNulFrom(b, st[j]) && CStringFrom(b, st[j]) == Words(t)[j]
    {
      StartsAt(t, 0, n, j);
      WordCut(s, t, b, st[j], Stop(t, 0, n));
    }
  }

  /**
   * The first inner loop: while the cursor is on white space (and not on
   * the terminator), overwrite it with NUL and move on.
   */
  method SkipBlanks(buf: array<char>, p: nat, ghost s: seq<char>, ghost t: seq<char>) returns (q: nat)
    requires TextOf(s, t) && p <= |t| && BlankedTo(s, buf[..], p)
    modifies buf
    ensures q == SkipBlank(t, p) && BlankedTo(s, buf[..], q)
  {
    q := p;
    while buf[q] != '\0' && IsSpace(buf[q])
      invariant p <= q <= SkipBlank(t, p)
      invariant BlankedTo(s, buf[..], q)
      decreases SkipBlank(t, p) - q
    {
      buf[q] := '\0';
      q := q + 1;
    }
  }

  /** The second inner loop: move the cursor over the word, writing nothing. */
  method SkipWord(buf: array<char>, p: nat, ghost s: seq<char>, ghost t: seq<char>) returns (e: nat)
    requires TextOf(s, t) && p <= |t| && BlankedTo(s, buf[..], p)
    ensures e == WordEnd(t, p) && BlankedTo(s, buf[..], e)
  {
    e := p;
    while buf[e] != '\0' && !IsSpace(buf[e])
      invariant p <= e <= WordEnd(t, p)
      invariant BlankedTo(s, buf[..], e)
      decreases WordEnd(t, p) - e
    {
      e := e + 1;
    }
  }

  /**
   * The state of `argv_create` at the head of its loop, after `i` passes
   * with the cursor at `p`: the white space passed so far is NUL, the
   * stored offsets are the first `i` the whole loop stores, the remaining
   * passes find the rest, and the slots from `i` on are untouched.
   */
  ghost predicate Scanning(s: seq<char>, t: seq<char>, n: nat, b: seq<char>, args: seq<int>, orig: seq<int>,
                           p: nat, i: nat)
  {
    && TextOf(s, t) && i <= n < |args| == |orig| && p <= |t|
    && BlankedTo(s, b, p)
    && Starts(t, 0, n) == args[..i] + Starts(t, p, n - i)
    && Stop(t, 0, n) == Stop(t, p, n - i)
    && args[i..] == orig[i..]
  }

  /** One pass of the loop of `argv_create`; `done` when it reaches the break. */
  method ArgvStep(buf: array<char>, argv: array<int>, p: nat, i: nat,
                  ghost s: seq<char>, ghost t: seq<char>, ghost n: nat, ghost orig: seq<int>)
    returns (done: bool, p': nat, i': nat)
    requires Scanning(s, t, n, buf[..], argv[..], orig, p, i) && i < n
    modifies buf, argv
    ensures Scanning(s, t, n, buf[..], argv[..], orig, p', i')
    ensures done ==> Starts(t, p', n - i') == [] && Stop(t, p', n - i') == p'
    ensures !done ==> i' == i + 1
  {
    ghost var before := argv[..];
    p' := SkipBlanks(buf, p, s, t);
    assert argv[..] == before;
    if buf[p'] == '\0' {
      done, i' := true, i;
      return;
    }
    assert Starts(t, p, n - i) == [p'] + Starts(t, WordEnd(t, p'), n - i - 1);
    argv[i] := p';
    assert argv[..i + 1] == before[..i] + [p'];
    assert argv[i + 1..] == orig[i + 1..];
    ghost var placed := argv[..];
    p' := SkipWord(buf, p', s, t);
    assert argv[..] == placed;
    done, i' := false, i + 1;
  }

  /**
   * Once no pass is left or a pass has hit the terminator, the cursor is
   * where the final NUL goes and every offset has been stored.
   */
  lemma ArgvEnds(s: seq<char>, t: seq<char>, n: nat, b: seq<char>, args: seq<int>, orig: seq<int>, p: nat, k: nat)
    requires Scanning(s, t, n, b, args, orig, p, k)
    requires k == n || (Starts(t, p, n - k) == [] && Stop(t, p, n - k) == p)
    requires HasNulFrom(s, 0) && t == CStringFrom(s, 0)
    ensures k == |Starts(t, 0, n)| && args[..k] == Starts(t, 0, n)
    ensures p == Stop(t, 0, n) && Cut(s, b[p := '\0'], p)
    ensures args[k := NULL][..k] == args[..k] && args[k := NULL][k + 1..] == orig[k + 1..]
    ensures k == Min(n, |Words(t)|)
    ensures forall j :: 0 <= j < k ==>
              HasNulFrom(b[p := '\0'], args[j]) && CStringFrom(b[p := '\0'], args[j]) == Words(t)[j]
  {
    assert args[..k] + Starts(t, p, n - k) == args[..k];
    assert args[k := NULL][k + 1..] == args[k + 1..];
    assert args[k + 1..] == orig[k..][1..];
    ArgvWords(s, b[p := '\0'], n);
  }

  /**
   * `argv_create(p, argc, argv)`: stores the offsets of the first words,
   * at most `argc - 1` of them, then NULL, and returns how many were
   * stored; the buffer is cut into C strings as Cut describes.
   */
  method ArgvCreate(buf: array<char>, argc: int, argv: array<int>) returns (i: int)
    requires HasNulFrom(buf[..], 0)
    requires 1 <= argv.Length && argc <= argv.Length
    modifies buf, argv
    ensures i == |Starts(CStringFrom(old(buf[..]), 0), 0, Slots(argc))|
    ensures argv[..i] == Starts(CStringFrom(old(buf[..]), 0), 0, Slots(argc))
    ensures argv[i] == NULL && argv[i + 1..] == old(argv[i + 1..])
    ensures Cut(old(buf[..]), buf[..], Stop(CStringFrom(old(buf[..]), 0), 0, Slots(argc)))
    ensures 0 <= i && (argc >= 1 ==> i <= argc - 1)
    ensures i == Min(Slots(argc), |Words(CStringFrom(old(buf[..]), 0))|)
    ensures forall j :: 0 <= j < i ==>
              HasNulFrom(buf[..], argv[j]) && CStringFrom(buf[..], argv[j]) == Words(CStringFrom(old(buf[..]), 0))[j]
  {
    ghost var s := buf[..];
    ghost var t := CStringFrom(s, 0);
    ghost var n := Slots(argc);
    ghost var orig := argv[..];
    TextOfCString(s);
    var p: nat := 0;
    var k: nat := 0;
    assert Scanning(s, t, n, buf[..], argv[..], orig, p, k);
    while k < argc - 1
      invariant Scanning(s, t, n, buf[..], argv[..], orig, p, k)
      decreases n - k
    {
      var done;
      done, p, k := ArgvStep(buf, argv, p, k, s, t, n, orig);
      if done {
        break;
      }
    }
    ghost var b, args := buf[..], argv[..];
    ArgvEnds(s, t, n, b, args, orig, p, k);
    buf[p] := '\0';
    argv[k] := NULL;
    assert buf[..] == b[p := '\0'] && argv[..] == args[k := NULL];
    i := k;
  }
}
