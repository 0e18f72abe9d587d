/**
 * The allocation guard: `safe_malloc` hands out zero-filled blocks and
 * `safe_strdup` a private copy of a C string.  Allocation failure, which
 * ends the process in the original, is not part of this model.
 */
module Alloc {
  import opened CStrings

  /** `safe_malloc(len)`: a fresh block of `len` bytes, all zero. */
  method SafeMalloc(len: nat) returns (block: array<byte>)
    ensures fresh(block) && block.Length == len
    ensures forall k :: 0 <= k < len ==> block[k] == 0
  {
    block := new byte[len];
    // the block is zeroed before it is handed out
    forall k | 0 <= k < len {
      block[k] := 0;
    }
  }

  /**
   * `safe_strdup(str)`: a fresh array of exactly `strlen(str) + 1`
   * characters holding the string and its terminator.
   */
  method SafeStrdup(str: array<char>) returns (copy: array<char>)
    requires HasNulFrom(str[..], 0)
    ensures fresh(copy)
    ensures copy[..] == str[..NulIndex(str[..], 0) + 1]
    ensures HasNulFrom(copy[..], 0) && CStringFrom(copy[..], 0) == CStringFrom(str[..], 0)
  {
    ghost var text := str[..];
    var len := NulIndex(str[..], 0);
    copy := new char[len + 1];
    // copy the characters and the terminator
    forall k | 0 <= k <= len {
      copy[k] := str[k];
    }
    assert copy[..] == text[..len + 1];
    assert str[..] == text;
    CStringFromAgree(text, copy[..], 0);
  }
}
