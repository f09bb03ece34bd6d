/** Value types shared by the whole model: Rust's fixed-width unsigned
    integers, and the Option and Result types that its standard library
    uses for absent values and fallible calls. */
module Base {

  /** Rust's `u8`: one byte of a datagram or of a payload. */
  newtype uint8 = x: int | 0 <= x < 0x100

  /** Rust's `u16`: a UDP port number. */
  newtype uint16 = x: int | 0 <= x < 0x1_0000

  datatype Option<+T> = None | Some(value: T)

  datatype Result<+T, +E> = Ok(value: T) | Err(error: E)

  lemma ConcatAssociative<T>(a: seq<T>, b: seq<T>, c: seq<T>)
    ensures a + b + c == a + (b + c)
  {
  }

  /** `xs` with `f` applied to every element, built by appending the images
      one at a time. */
  function Map<A, B>(f: A -> B, xs: seq<A>): (ys: seq<B>)
    ensures |ys| == |xs|
  {
    if xs == [] then [] else Map(f, xs[..|xs| - 1]) + [f(xs[|xs| - 1])]
  }

  /** Element `i` of the image is the image of element `i`. */
  lemma {:induction false} MapElement<A, B>(f: A -> B, xs: seq<A>, i: nat)
    requires i < |xs|
    ensures Map(f, xs)[i] == f(xs[i])
  {
    if i < |xs| - 1 {
      MapElement(f, xs[..|xs| - 1], i);
    }
  }

  /** Extending a prefix of the input by one element extends the image by
      that element's image. */
  lemma MapPrefixStep<A, B>(f: A -> B, xs: seq<A>, i: nat)
    requires i < |xs|
    ensures Map(f, xs[..i + 1]) == Map(f, xs[..i]) + [f(xs[i])]
  {
    assert xs[..i + 1][..i] == xs[..i];
  }

  lemma MapWhole<A, B>(f: A -> B, xs: seq<A>)
    ensures Map(f, xs[..|xs|]) == Map(f, xs)
  {
    assert xs[..|xs|] == xs;
  }
}
