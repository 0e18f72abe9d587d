/**
 * C strings held in character arrays: a string is the run of characters
 * from some offset up to the first NUL at or after it.  Also the C types
 * the utilities work with (unsigned char) and the C-locale `isspace`.
 */
module CStrings {

  /** An `unsigned char`. */
  newtype byte = x: int | 0 <= x < 0x100

  /** `isspace` in the "C" locale: space, \t, \n, \v, \f and \r. */
  predicate IsSpace(c: char) {
    c == ' ' || c == '\t' || c == '\n' || c == '\U{B}' || c == '\U{C}' || c == '\r'
  }

  /** There is a NUL terminator at or after offset `i` of `a`. */
  predicate HasNulFrom(a: seq<char>, i: int) {
    0 <= i <= |a| && '\0' in a[i..]
  }

  /** The offset of the first NUL at or after `i` (`i + strlen(a + i)`). */
  function NulIndex(a: seq<char>, i: nat): (n: nat)
    requires HasNulFrom(a, i)
    ensures i <= n < |a| && a[n] == '\0'
    ensures forall k :: i <= k < n ==> a[k] != '\0'
    decreases |a| - i
  {
    if a[i] == '\0' then i
    else
      assert a[i..] == [a[i]] + a[i + 1..];
      NulIndex(a, i + 1)
  }

  /** The C string that starts at offset `i`, without its terminator. */
  function CStringFrom(a: seq<char>, i: nat): (s: seq<char>)
    requires HasNulFrom(a, i)
    ensures '\0' !in s
    ensures |s| == NulIndex(a, i) - i
  {
    a[i..NulIndex(a, i)]
  }

  /** Any NUL with no NUL before it (from `i` on) is the one NulIndex finds. */
  lemma NulIndexUnique(a: seq<char>, i: nat, n: nat)
    requires i <= n < |a| && a[n] == '\0'
    requires forall k :: i <= k < n ==> a[k] != '\0'
    ensures HasNulFrom(a, i) && NulIndex(a, i) == n
  {
    assert a[i..][n - i] == '\0';
  }

  /** Moving the start forward inside a C string keeps its terminator. */
  lemma NulIndexInside(a: seq<char>, i: nat, j: nat)
    requires HasNulFrom(a, i) && i <= j <= NulIndex(a, i)
    ensures HasNulFrom(a, j) && NulIndex(a, j) == NulIndex(a, i)
    ensures CStringFrom(a, j) == CStringFrom(a, i)[j - i..]
  {
    NulIndexUnique(a, j, NulIndex(a, i));
  }

  /**
   * Two buffers that agree from `i` up to and including the terminator
   * hold the same C string at `i`.
   */
  lemma CStringFromAgree(a: seq<char>, b: seq<char>, i: nat)
    requires HasNulFrom(a, i)
    requires NulIndex(a, i) < |b|
    requires forall k :: i <= k <= NulIndex(a, i) ==> b[k] == a[k]
    ensures HasNulFrom(b, i) && NulIndex(b, i) == NulIndex(a, i)
    ensures CStringFrom(b, i) == CStringFrom(a, i)
  {
    NulIndexUnique(b, i, NulIndex(a, i));
  }
}
