/**
 Shift registers over any exclusive-or: what CRC arithmetic needs, with no machine words in sight.
 */
module Linear {

  /** Exclusive or: associative, commutative, with a unit, and every element its own inverse. */
  ghost predicate IsXor<T(!new)>(xor: (T, T) -> T, zero: T) {
    && (forall a: T, b: T, c: T {:trigger xor(xor(a, b), c)} {:trigger xor(a, xor(b, c))} ::
          xor(xor(a, b), c) == xor(a, xor(b, c)))
    && (forall a: T, b: T :: xor(a, b) == xor(b, a))
    && (forall a: T {:trigger xor(a, zero)} {:trigger xor(a, a)} :: xor(a, zero) == a && xor(a, a) == zero)
  }

  ghost predicate IsLinear<T(!new)>(xor: (T, T) -> T, f: T -> T) {
    forall a: T, b: T :: f(xor(a, b)) == xor(f(a), f(b))
  }

  function Iterate<T>(f: T -> T, x: T, n: nat): T {
    if n == 0 then x else f(Iterate(f, x, n - 1))
  }

  lemma {:induction false} IterateIsLinear<T(!new)>(xor: (T, T) -> T, f: T -> T, a: T, b: T, n: nat)
    requires IsLinear(xor, f)
    ensures Iterate(f, xor(a, b), n) == xor(Iterate(f, a, n), Iterate(f, b, n))
  {
    if n > 0 {
      IterateIsLinear(xor, f, a, b, n - 1);
    }
  }

  lemma {:induction false} IterateAdds<T>(f: T -> T, x: T, m: nat, n: nat)
    ensures Iterate(f, Iterate(f, x, m), n) == Iterate(f, x, m + n)
  {
    if n > 0 {
      IterateAdds(f, x, m, n - 1);
    }
  }

  ghost predicate IsInjective<T(!new)>(f: T -> T) {
    forall a: T, b: T :: f(a) == f(b) ==> a == b
  }

  lemma {:induction false} IterateIsInjective<T(!new)>(f: T -> T, a: T, b: T, n: nat)
    requires IsInjective(f) && Iterate(f, a, n) == Iterate(f, b, n)
    ensures a == b
  {
    if n > 0 {
      IterateIsInjective(f, a, b, n - 1);
    }
  }

  lemma Swap<T(!new)>(xor: (T, T) -> T, zero: T, a: T, b: T, c: T, d: T)
    requires IsXor(xor, zero)
    ensures xor(xor(a, b), xor(c, d)) == xor(xor(a, c), xor(b, d))
  {
    assert xor(b, xor(c, d)) == xor(c, xor(b, d)) by {
      assert xor(xor(b, c), d) == xor(xor(c, b), d);
    }
  }

  /** Advancing four parts of a register separately and adding them up advances the register. */
  lemma PartsAdvance<T(!new)>(xor: (T, T) -> T, zero: T, f: T -> T, n: nat, w: T, p0: T, p1: T, p2: T, p3: T)
    requires IsXor(xor, zero) && IsLinear(xor, f)
    ensures xor(xor(xor(xor(w, Iterate(f, p0, n)), Iterate(f, p1, n)), Iterate(f, p2, n)), Iterate(f, p3, n))
         == xor(w, Iterate(f, xor(xor(xor(p0, p1), p2), p3), n))
  {
    IterateIsLinear(xor, f, p0, p1, n);
    IterateIsLinear(xor, f, xor(p0, p1), p2, n);
    IterateIsLinear(xor, f, xor(xor(p0, p1), p2), p3, n);
  }

  lemma FourFours<T>(f: T -> T, g: T -> T, x: T)
    requires forall y: T :: g(y) == Iterate(f, y, 4)
    ensures g(g(g(g(x)))) == Iterate(f, x, 16)
  {
    IterateAdds(f, x, 4, 4);
    IterateAdds(f, x, 8, 4);
    IterateAdds(f, x, 12, 4);
  }

  /** Feeds inputs to a register that advances by f, one at a time. */
  function Fed<T, U>(xor: (T, T) -> T, f: T -> T, from: U -> T, l: T, data: seq<U>): T {
    if data == [] then l else f(xor(Fed(xor, f, from, l, data[..|data| - 1]), from(data[|data| - 1])))
  }

  lemma FeedOne<T, U>(xor: (T, T) -> T, f: T -> T, from: U -> T, l: T, data: seq<U>, p: nat)
    requires p < |data|
    ensures Fed(xor, f, from, l, data[..p + 1]) == f(xor(Fed(xor, f, from, l, data[..p]), from(data[p])))
  {
    assert data[..p + 1][..p] == data[..p];
  }

  lemma {:induction false} FeedAppends<T, U>(xor: (T, T) -> T, f: T -> T, from: U -> T, l: T, a: seq<U>, b: seq<U>)
    ensures Fed(xor, f, from, l, a + b) == Fed(xor, f, from, Fed(xor, f, from, l, a), b)
  {
    if b == [] {
      assert a + b == a;
    } else {
      assert (a + b)[..|a + b| - 1] == a + b[..|b| - 1];
      FeedAppends(xor, f, from, l, a, b[..|b| - 1]);
    }
  }

  lemma FourTimes<T>(f: T -> T, x: T)
    ensures Iterate(f, x, 4) == f(f(f(f(x))))
  {
    assert Iterate(f, x, 1) == f(x);
    assert Iterate(f, x, 2) == f(f(x));
    assert Iterate(f, x, 3) == f(f(f(x)));
  }

  /** Inputs fed one after the other could as well be added together first, each as many steps earlier. */
  lemma FeedFour<T(!new), U>(xor: (T, T) -> T, zero: T, f: T -> T, from: U -> T, l: T, data: seq<U>, p: nat,
                             u1: T, u2: T, u3: T)
    requires IsXor(xor, zero) && IsLinear(xor, f)
    requires p + 4 <= |data|
    requires f(u1) == from(data[p + 1]) && f(f(u2)) == from(data[p + 2]) && f(f(f(u3))) == from(data[p + 3])
    ensures Fed(xor, f, from, l, data[..p + 4])
         == Iterate(f, xor(xor(xor(xor(from(data[p]), u1), u2), u3), Fed(xor, f, from, l, data[..p])), 4)
  {
    var x := Fed(xor, f, from, l, data[..p]);
    var u0 := from(data[p]);
    FeedOne(xor, f, from, l, data, p);
    FeedOne(xor, f, from, l, data, p + 1);
    FeedOne(xor, f, from, l, data, p + 2);
    FeedOne(xor, f, from, l, data, p + 3);
    FourFeeds(xor, zero, f, x, u0, u1, u2, u3);
    FourTimes(f, xor(xor(xor(xor(u0, u1), u2), u3), x));
  }

  /** Inputs fed one after the other could as well be added together first, each as many steps earlier. */
  lemma FourFeeds<T(!new)>(xor: (T, T) -> T, zero: T, f: T -> T, x: T, u0: T, u1: T, u2: T, u3: T)
    requires IsXor(xor, zero) && IsLinear(xor, f)
    ensures f(xor(f(xor(f(xor(f(xor(x, u0)), f(u1))), f(f(u2)))), f(f(f(u3)))))
         == f(f(f(f(xor(xor(xor(xor(u0, u1), u2), u3), x)))))
  {
    var y1 := xor(x, u0);
    var y2 := xor(y1, u1);
    var y3 := xor(y2, u2);
    var y4 := xor(y3, u3);
    assert xor(f(y1), f(u1)) == f(y2);
    assert xor(f(f(y2)), f(f(u2))) == f(f(y3)) by { assert xor(f(y2), f(u2)) == f(y3); }
    assert xor(f(f(f(y3))), f(f(f(u3)))) == f(f(f(y4))) by {
      assert xor(f(y3), f(u3)) == f(y4);
      assert xor(f(f(y3)), f(f(u3))) == f(f(y4));
    }
    assert y2 == xor(x, xor(u0, u1));
    assert y3 == xor(x, xor(xor(u0, u1), u2));
    assert y4 == xor(x, xor(xor(xor(u0, u1), u2), u3));
  }

  /** Four interleaved partial results, read as one register. */
  function Combined<T>(xor: (T, T) -> T, g: T -> T, c0: T, c1: T, c2: T, c3: T): T {
    g(xor(c3, g(xor(c2, g(xor(c1, g(c0)))))))
  }

  /** Replacing the oldest partial result by the next word, advanced past the four words between, feeds that word. */
  lemma StrideFeedsOneWord<T(!new)>(xor: (T, T) -> T, zero: T, g: T -> T, c0: T, c1: T, c2: T, c3: T, w: T)
    requires IsXor(xor, zero) && IsLinear(xor, g)
    ensures Combined(xor, g, c1, c2, c3, xor(w, g(g(g(g(c0)))))) == g(xor(w, Combined(xor, g, c0, c1, c2, c3)))
  {
    var a := g(c0);
    var b := xor(c2, g(c1));
    assert g(xor(c1, a)) == xor(g(c1), g(a));
    assert xor(c2, g(xor(c1, a))) == xor(b, g(a));
    assert g(xor(b, g(a))) == xor(g(b), g(g(a)));
    assert xor(c3, xor(g(b), g(g(a)))) == xor(xor(c3, g(b)), g(g(a)));
    assert g(xor(xor(c3, g(b)), g(g(a)))) == xor(g(xor(c3, g(b))), g(g(g(a))));
    assert xor(xor(w, g(g(g(a)))), g(xor(c3, g(b)))) == xor(w, xor(g(xor(c3, g(b))), g(g(g(a)))));
  }

  /** fed(p) is the register after p bytes, where every four bytes go in as one word. */
  ghost predicate FeedsWords<T>(xor: (T, T) -> T, g: T -> T, read: nat -> T, fed: nat -> T, e: nat) {
    forall p: nat {:trigger read(p)} | p + 4 <= e :: fed(p + 4) == g(xor(read(p), fed(p)))
  }

  /** stride(c, w) is the next word w added to c advanced by four words. */
  ghost predicate IsStride<T(!new)>(xor: (T, T) -> T, g: T -> T, stride: (T, T) -> T) {
    forall c: T, w: T :: stride(c, w) == xor(w, g(g(g(g(c)))))
  }

  /** One stride step on the oldest partial result feeds one more word. */
  ghost predicate StepsFeed<T(!new)>(xor: (T, T) -> T, g: T -> T, read: nat -> T, stride: (T, T) -> T,
                                     fed: nat -> T, e: nat) {
    forall p: nat, c0: T, c1: T, c2: T, c3: T {:trigger stride(c0, read(p)), Combined(xor, g, c0, c1, c2, c3)} ::
      p + 4 <= e && Combined(xor, g, c0, c1, c2, c3) == fed(p)
      ==> Combined(xor, g, c1, c2, c3, stride(c0, read(p))) == fed(p + 4)
  }

  lemma StridesFeed<T(!new)>(xor: (T, T) -> T, zero: T, g: T -> T, read: nat -> T, stride: (T, T) -> T,
                             fed: nat -> T, e: nat)
    requires IsXor(xor, zero) && IsLinear(xor, g) && FeedsWords(xor, g, read, fed, e) && IsStride(xor, g, stride)
    ensures StepsFeed(xor, g, read, stride, fed, e)
  {
    forall p: nat, c0: T, c1: T, c2: T, c3: T {:trigger stride(c0, read(p)), Combined(xor, g, c0, c1, c2, c3)}
      | p + 4 <= e && Combined(xor, g, c0, c1, c2, c3) == fed(p)
      ensures Combined(xor, g, c1, c2, c3, stride(c0, read(p))) == fed(p + 4)
    {
      StrideFeedsOneWord(xor, zero, g, c0, c1, c2, c3, read(p));
    }
  }

  lemma LoadFeeds<T>(xor: (T, T) -> T, g: T -> T, read: nat -> T, fed: nat -> T, e: nat, p: nat)
    requires FeedsWords(xor, g, read, fed, e)
    requires p + 16 <= e
    ensures Combined(xor, g, xor(read(p), fed(p)), read(p + 4), read(p + 8), read(p + 12)) == fed(p + 16)
  {
    assert fed(p + 4) == g(xor(read(p), fed(p)));
    assert fed(p + 4 + 4) == g(xor(read(p + 4), fed(p + 4)));
    assert fed(p + 8 + 4) == g(xor(read(p + 8), fed(p + 8)));
    assert fed(p + 12 + 4) == g(xor(read(p + 12), fed(p + 12)));
  }

  /** The stride loops of Extend: sixteen bytes at a time, then four, leaving at most three. */
  method Stride<T(!new)>(ghost xor: (T, T) -> T, ghost g: T -> T, read: nat -> T, stride: (T, T) -> T,
                         ghost fed: nat -> T, e: nat, start: nat, c0: T, c1: T, c2: T, c3: T)
    returns (crc0: T, crc1: T, crc2: T, crc3: T, p: nat)
    requires StepsFeed(xor, g, read, stride, fed, e)
    requires start <= e
    requires Combined(xor, g, c0, c1, c2, c3) == fed(start)
    ensures p <= e < p + 4
    ensures Combined(xor, g, crc0, crc1, crc2, crc3) == fed(p)
  {
    p := start;
    crc0, crc1, crc2, crc3 := c0, c1, c2, c3;
    while e - p >= 16
      invariant p <= e
      invariant Combined(xor, g, crc0, crc1, crc2, crc3) == fed(p)
    {
      crc0 := stride(crc0, read(p + 0 * 4));
      assert Combined(xor, g, crc1, crc2, crc3, crc0) == fed(p + 4);
      crc1 := stride(crc1, read(p + 1 * 4));
      assert Combined(xor, g, crc2, crc3, crc0, crc1) == fed(p + 8);
      crc2 := stride(crc2, read(p + 2 * 4));
      assert Combined(xor, g, crc3, crc0, crc1, crc2) == fed(p + 12);
      crc3 := stride(crc3, read(p + 3 * 4));
      p := p + 16;
    }
    while e - p >= 4
      invariant p <= e
      invariant Combined(xor, g, crc0, crc1, crc2, crc3) == fed(p)
    {
      crc0 := stride(crc0, read(p));
      crc0, crc1, crc2, crc3 := crc1, crc2, crc3, crc0;
      p := p + 4;
    }
  }
}
