/** The few pieces of Ruby's String semantics that Paseto::Local relies on:
    `nil`, binary strings as byte sequences, `String#start_with?`, and the two
    slicing forms `s[start, length]` and `s[start..-1]`. Character strings are
    `seq<char>`, binary strings are `seq<byte>`; the slicing functions are
    generic so that they serve both. Only non-negative start positions are
    modelled, which covers every slice taken in lib/paseto/local.rb. */
module Ruby {

  /** Ruby's `nil` next to a present value. */
  datatype Option<T> = None | Some(value: T)

  /** One octet of a binary (ASCII-8BIT) string. */
  newtype byte = b: int | 0 <= b < 256

  type Bytes = seq<byte>

  function Min(a: int, b: int): int { if a <= b then a else b }

  /** `s[start, length]`: `nil` when `start` lies beyond the end, the empty
      string when it is exactly the end, otherwise at most `length` elements
      beginning at `start`. */
  function Slice<T>(s: seq<T>, start: nat, length: nat): (r: Option<seq<T>>)
    ensures r.None? <==> start > |s|
    ensures r.Some? ==> |r.value| <= length && start + |r.value| <= |s| && forall i :: 0 <= i < |r.value| ==> r.value[i] == s[start + i]
    ensures r.Some? && start + length <= |s| ==> |r.value| == length
    ensures r.Some? && start + length > |s| ==> start + |r.value| == |s|
  {
    if start > |s| then None
    else Some(s[start..start + Min(length, |s| - start)])
  }

  /** `s[start..-1]`: `nil` when `start` lies beyond the end, the empty string
      when it is exactly the end, otherwise the suffix from `start`. */
  function SliceFrom<T>(s: seq<T>, start: nat): (r: Option<seq<T>>)
    ensures r.None? <==> start > |s|
    ensures r.Some? ==> s[..start] + r.value == s
  {
    if start > |s| then None else Some(s[start..])
  }

  /** `s.start_with?(prefix)`, comparing element by element from the front. */
  function StartsWith<T(==)>(s: seq<T>, prefix: seq<T>): (r: bool)
    ensures r <==> |prefix| <= |s| && s[..|prefix|] == prefix
  {
    if prefix == [] then true
    else if s == [] then false
    else s[0] == prefix[0] && StartsWith(s[1..], prefix[1..])
  }
}
