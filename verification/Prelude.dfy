/** Value types shared by the whole model. */
module Prelude {
  datatype Option<+T> = None | Some(value: T)

  datatype Result<+T, +E> = Ok(value: T) | Err(error: E)

  newtype Byte = b: int | 0 <= b < 0x100

  type Bytes = seq<Byte>

  const U32_LIMIT := 0x1_0000_0000
  const U32_MAX: U32 := 0xFFFF_FFFF

  type U32 = n: nat | n < 0x1_0000_0000

  const U64_LIMIT := 0x1_0000_0000_0000_0000

  type U64 = n: nat | n < 0x1_0000_0000_0000_0000

  /** Addition and subtraction as compiled without overflow checks. */
  function WrappingAdd32(a: U32, b: U32): U32 { (a + b) % U32_LIMIT }

  function WrappingSub32(a: U32, b: U32): U32 { (a - b) % U32_LIMIT }

  function WrappingAdd64(a: U64, b: U64): U64 { (a + b) % U64_LIMIT }

  ghost predicate IsMax(m: U32, s: set<U32>) {
    m in s && forall x :: x in s ==> x <= m
  }

  /** The greatest element, as an iterator's `max` finds it. */
  ghost function Max(s: set<U32>): (m: U32)
    requires s != {}
    ensures IsMax(m, s)
  {
    var x :| x in s;
    if s == {x} then
      x
    else
      var rest := s - {x};
      assert s == rest + {x};
      var y := Max(rest);
      if x < y then y else x
  }

  ghost predicate IsListing<T(!new)>(order: seq<T>, s: set<T>) {
    && (forall x :: x in order <==> x in s)
    && (forall i, j :: 0 <= i < j < |order| ==> order[i] != order[j])
  }

  /** The elements of a finite set in some order: what a directory listing yields. */
  method Listing<T(!new, ==)>(s: set<T>) returns (order: seq<T>)
    ensures IsListing(order, s)
  {
    order := [];
    var todo := s;
    while todo != {}
      invariant todo <= s
      invariant IsListing(order, s - todo)
      decreases |todo|
    {
      var x :| x in todo;
      assert x !in order;
      forall y ensures y in order + [x] <==> y in s - (todo - {x}) {
        assert y in order + [x] <==> y in order || y == x;
      }
      order := order + [x];
      todo := todo - {x};
    }
    assert s - todo == s;
  }
}
