/**
 * Byte strings and the small failure-carrying datatypes shared by the
 * other modules: nginx hands every directive argument and every variable
 * value over as a run of bytes (`ngx_str_t`, `u_char *`).
 */
module Common {

  newtype byte = x: int | 0 <= x < 256

  type Bytes = seq<byte>

  datatype Option<+T> = None | Some(value: T)

  datatype Result<+T, +E> = Ok(value: T) | Err(error: E)

  /**
   * Length of the longest prefix of `s` whose bytes all satisfy `p`: the
   * scanning loops of the module (`strtoull`'s digits, a `$name`'s
   * identifier characters) all stop at the first byte that fails.
   */
  function SpanLength(s: Bytes, p: byte -> bool): (n: nat)
    ensures n <= |s|
    ensures forall j :: 0 <= j < n ==> p(s[j])
    ensures n < |s| ==> !p(s[n])
  {
    if s == [] || !p(s[0]) then 0 else 1 + SpanLength(s[1..], p)
  }

  /** Number of positions of `s` that hold the byte `b`. */
  function Occurrences(s: Bytes, b: byte): (n: nat)
    ensures n <= |s|
  {
    if s == [] then 0
    else (if s[0] == b then 1 else 0) + Occurrences(s[1..], b)
  }

  /** `b` occurs nowhere exactly when no position of `s` holds it. */
  lemma {:induction false} NoOccurrences(s: Bytes, b: byte)
    ensures Occurrences(s, b) == 0 <==> forall j :: 0 <= j < |s| ==> s[j] != b
  {
    if s != [] {
      NoOccurrences(s[1..], b);
      assert forall j :: 0 <= j < |s| - 1 ==> s[1..][j] == s[j + 1];
    }
  }

  /** Occurrences add up over a concatenation. */
  lemma {:induction false} OccurrencesAppend(a: Bytes, c: Bytes, b: byte)
    ensures Occurrences(a + c, b) == Occurrences(a, b) + Occurrences(c, b)
  {
    if a != [] {
      assert (a + c)[1..] == a[1..] + c;
      OccurrencesAppend(a[1..], c, b);
    } else {
      assert a + c == c;
    }
  }

  /** `f` applied to every element of `xs`, in order. */
  function Apply<A, B>(f: A -> B, xs: seq<A>): (ys: seq<B>)
    ensures |ys| == |xs|
    ensures forall i :: 0 <= i < |xs| ==> ys[i] == f(xs[i])
  {
    seq(|xs|, i requires 0 <= i < |xs| => f(xs[i]))
  }
}
