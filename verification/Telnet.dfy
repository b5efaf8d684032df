/** Bytes, the TELNET command codes and the option codes the library knows by name. */
module Telnet {

  type byte = b: int | 0 <= b < 256

  // Command codes (RFC 854).
  const IAC: byte := 255
  const DONT: byte := 254
  const DO: byte := 253
  const WONT: byte := 252
  const WILL: byte := 251
  const SB: byte := 250
  const SE: byte := 240

  /** WILL, WONT, DO and DONT: the commands that carry an option. */
  predicate IsNegotiation(b: byte) {
    WILL <= b <= DONT
  }

  /** Concatenation of a sequence of sequences. */
  function Flat<T>(parts: seq<seq<T>>): seq<T> {
    if parts == [] then [] else parts[0] + Flat(parts[1..])
  }

  /** The first `n` elements, or all of them when there are fewer. */
  function First<T>(s: seq<T>, n: nat): seq<T> {
    if |s| <= n then s else s[..n]
  }

  /** `store` with its first bytes overwritten by `payload`. */
  function Overlay(store: seq<byte>, payload: seq<byte>): seq<byte> {
    if |payload| <= |store| then payload + store[|payload|..] else payload
  }

  lemma ConcatAssociative<T>(s: seq<T>, t: seq<T>, u: seq<T>)
    ensures s + t + u == s + (t + u)
  {
  }

  lemma OverlayOfPrefix(store: seq<byte>, payload: seq<byte>)
    requires payload <= store
    ensures Overlay(store, payload) == store
  {
  }
}
