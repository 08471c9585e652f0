/** The container helpers, character classes and index mappings of the miscellaneous
    header. */
module MiscFunctions {
  import opened Wrappers
  import opened Bytes
  import opened Vectors

  newtype uint32 = v: int | 0 <= v < 0x1_0000_0000

  // ---------------------------------------------------------------------------
  // Container helpers

  /** The position of the first element equal to `key`. */
  function FirstIndexOf<T(==)>(s: seq<T>, key: T): (r: nat)
    requires key in s
    ensures r < |s| && s[r] == key && key !in s[..r]
  {
    if s[0] == key then 0
    else
      assert s == [s[0]] + s[1..];
      var r := 1 + FirstIndexOf(s[1..], key);
      assert s[..r] == [s[0]] + s[1..][..r - 1];
      r
  }

  /** The sequence with the element at position i erased. */
  function Erase<T>(s: seq<T>, i: nat): (r: seq<T>)
    requires i < |s|
    ensures |r| == |s| - 1
  {
    s[..i] + s[i + 1..]
  }

  /** Erasing keeps every other element, in order, and removes exactly one copy of the
      erased one. */
  lemma EraseKeepsOthers<T>(s: seq<T>, i: nat)
    requires i < |s|
    ensures forall j :: 0 <= j < i ==> Erase(s, i)[j] == s[j]
    ensures forall j :: i <= j < |s| - 1 ==> Erase(s, i)[j] == s[j + 1]
    ensures multiset(Erase(s, i)) == multiset(s) - multiset{s[i]}
  {
    assert s == s[..i] + [s[i]] + s[i + 1..];
    calc {
      multiset(s);
      multiset(s[..i]) + multiset{s[i]} + multiset(s[i + 1..]);
      multiset(Erase(s, i)) + multiset{s[i]};
    }
  }

  /** find_idx: the index of the first element equal to the key, or nothing. */
  method FindIdx<T(==)>(container: seq<T>, key: T) returns (r: Option<nat>)
    ensures r.None? <==> key !in container
    ensures r.Some? ==> r.value < |container| && container[r.value] == key
    ensures r.Some? ==> key !in container[..r.value]
  {
    var index := 0;
    while index < |container|
      invariant 0 <= index <= |container|
      invariant key !in container[..index]
    {
      if container[index] == key {
        return Some(index);
      }
      assert container[..index + 1] == container[..index] + [container[index]];
      index := index + 1;
    }
    assert container[..index] == container;
    return None;
  }

  /** A vector the helpers erase from in place. */
  class Container<T(==)> {
    var items: seq<T>

    constructor (contents: seq<T>)
      ensures items == contents
    {
      items := contents;
    }

    /** pop_val: erases the first element equal to the key, and reports whether there
        was one. */
    method PopVal(key: T) returns (found: bool)
      modifies this
      ensures found <==> key in old(items)
      ensures found ==> items == Erase(old(items), FirstIndexOf(old(items), key))
      ensures !found ==> items == old(items)
    {
      var at := FindIdx(items, key);
      if at.None? {
        return false;
      }
      assert at.value == FirstIndexOf(items, key) by {
        FirstIndexUnique(items, key, at.value);
      }
      items := items[..at.value] + items[at.value + 1..];
      return true;
    }

    /** pop_idx: erases the element at the index taken modulo the size. */
    method PopIdx(index: nat)
      requires |items| > 0
      modifies this
      ensures items == Erase(old(items), index % |old(items)|)
    {
      var wrapped := index % |items|;
      items := items[..wrapped] + items[wrapped + 1..];
    }
  }

  lemma FirstIndexUnique<T>(s: seq<T>, key: T, i: nat)
    requires i < |s| && s[i] == key && key !in s[..i]
    ensures key in s && FirstIndexOf(s, key) == i
  {
  }

  // ---------------------------------------------------------------------------
  // Character classes (the argument is a 32-bit unsigned code point)

  /** is_printable: ASCII characters from space to tilde. */
  predicate IsPrintable(ch: uint32)
  {
    31 < ch && ch < 127
  }

  /** is_wordch as written: every comparison is strict, so the six range endpoints are
      rejected. */
  predicate IsWordch(ch: uint32)
  {
    ('0' as uint32 < ch && ch < '9' as uint32)
    || ('a' as uint32 < ch && ch < 'z' as uint32)
    || ('A' as uint32 < ch && ch < 'Z' as uint32)
    || ch == '_' as uint32
  }

  /** The class its documentation names, [a-zA-Z0-9_]. */
  predicate IsWordChar(ch: uint32)
  {
    ('0' as uint32 <= ch <= '9' as uint32)
    || ('a' as uint32 <= ch <= 'z' as uint32)
    || ('A' as uint32 <= ch <= 'Z' as uint32)
    || ch == '_' as uint32
  }

  const ENDPOINTS: seq<uint32> := ['0' as uint32, '9' as uint32, 'a' as uint32, 'z' as uint32, 'A' as uint32, 'Z' as uint32]

  /** The code points accepted by is_printable are exactly 32 through 126. */
  lemma PrintableRange(ch: uint32)
    ensures IsPrintable(ch) <==> 32 <= ch <= 126
    ensures IsPrintable(ch) <==> ' ' as uint32 <= ch <= '~' as uint32
  {
  }

  /** is_wordch accepts exactly the word characters other than the six endpoints, and
      every word character is printable. */
  lemma WordchMissesEndpoints(ch: uint32)
    ensures IsWordch(ch) <==> IsWordChar(ch) && ch !in ENDPOINTS
    ensures IsWordChar(ch) ==> IsPrintable(ch)
  {
  }

  /** 'a' and '0' are word characters that is_wordch rejects. */
  lemma WordchRejectsA()
    ensures IsWordChar('a' as uint32) && !IsWordch('a' as uint32)
    ensures IsWordChar('0' as uint32) && !IsWordch('0' as uint32)
  {
  }

  // ---------------------------------------------------------------------------
  // Index mappings. The arithmetic is 32-bit unsigned; the result is returned as int.

  /** The conversion of an int32 argument to a uint32 parameter. */
  function Unsigned(v: int32): (r: uint32)
    ensures r as int % TWO_32 == v as int % TWO_32
  {
    (v as int % TWO_32) as uint32
  }

  /** to_1d(x, y, width): x * width + y in 32-bit unsigned arithmetic, as an int. */
  function ToOneD(x: uint32, y: uint32, width: uint32): (r: int32)
    ensures (r as int - (x as int * width as int + y as int)) % TWO_32 == 0
  {
    ModOfSplit32(x as int * width as int + y as int);
    ToInt32((x as int * width as int + y as int) % TWO_32) as int32
  }

  /** The overloads taking a pair and a Vector2i. */
  function ToOneDPair(indices: (uint32, uint32), width: uint32): (r: int32)
    ensures (r as int - (indices.0 as int * width as int + indices.1 as int)) % TWO_32 == 0
  {
    ToOneD(indices.0, indices.1, width)
  }

  /** The signed coordinates are converted to uint32 first, which changes nothing modulo 2^32. */
  function ToOneDVector(indices: Vector2i, width: uint32): (r: int32)
    ensures (r as int - (indices.x as int * width as int + indices.y as int)) % TWO_32 == 0
  {
    var ux, uy := Unsigned(indices.x), Unsigned(indices.y);
    var r := ToOneD(ux, uy, width);
    UnsignedCongruent(ux as int, indices.x as int, uy as int, indices.y as int, width as int);
    CongruentTrans(r as int, ux as int * width as int + uy as int, indices.x as int * width as int + indices.y as int);
    r
  }

  lemma CongruentTrans(a: int, b: int, c: int)
    requires (a - b) % TWO_32 == 0 && (b - c) % TWO_32 == 0
    ensures (a - c) % TWO_32 == 0
  {
    var s, t := (a - b) / TWO_32, (b - c) / TWO_32;
    assert a - b == TWO_32 * s && b - c == TWO_32 * t;
    assert a - c == TWO_32 * (s + t);
  }

  /** Replacing each coordinate by one congruent to it modulo 2^32 keeps x*w+y modulo 2^32. */
  lemma UnsignedCongruent(ux: int, x: int, uy: int, y: int, w: int)
    requires ux % TWO_32 == x % TWO_32 && uy % TWO_32 == y % TWO_32
    ensures ((ux * w + uy) - (x * w + y)) % TWO_32 == 0
  {
    var tx, ty := ux / TWO_32 - x / TWO_32, uy / TWO_32 - y / TWO_32;
    assert ux - x == TWO_32 * tx;
    assert uy - y == TWO_32 * ty;
    assert ux * w - x * w == (ux - x) * w;
    assert (ux * w + uy) - (x * w + y) == TWO_32 * (tx * w + ty);
  }

  /** to_2d(index, width): quotient and remainder, each converted to int32. */
  function ToTwoD(index: uint32, width: uint32): (r: Vector2i)
    requires width != 0
  {
    Vector2i(ToInt32(index as int / width as int) as int32, ToInt32(index as int % width as int) as int32)
  }

  lemma ModOfSplit32(v: int)
    ensures (ToInt32(v % TWO_32) - v) % TWO_32 == 0
  {
    var u := v % TWO_32;
    var q := v / TWO_32;
    assert v == q * TWO_32 + u;
    if u < TWO_31 {
      assert ToInt32(u) - v == (-q) * TWO_32;
    } else {
      assert ToInt32(u) - v == (-q - 1) * TWO_32;
    }
  }

  /** Mapping an index to two dimensions and back gives the index, read as an int. */
  lemma OneDOfTwoD(index: uint32, width: uint32)
    requires width != 0
    ensures ToOneDVector(ToTwoD(index, width), width) as int == ToInt32(index as int)
    ensures index as int < TWO_31 ==> ToOneDVector(ToTwoD(index, width), width) as int == index as int
  {
    var i, w := index as int, width as int;
    var q, m := i / w, i % w;
    assert i == w * q + m;
    assert q <= i by {
      MulMonotone(w, q);
    }
    var v := ToTwoD(index, width);
    assert Unsigned(v.x) as int == q;
    assert Unsigned(v.y) as int == m;
    assert q * w + m == i;
    assert ToOneDVector(v, width) == ToOneD(q as uint32, m as uint32, width);
  }

  /** Mapping coordinates to one dimension and back gives the coordinates, when the
      column is inside the row and the index fits in an int. */
  lemma TwoDOfOneD(x: uint32, y: uint32, width: uint32)
    requires y < width
    requires x as int * width as int + y as int < TWO_31
    ensures ToOneD(x, y, width) as int == x as int * width as int + y as int
    ensures ToTwoD(ToOneD(x, y, width) as int as uint32, width) == Vector2i(x as int as int32, y as int as int32)
  {
    var i := x as int * width as int + y as int;
    assert x as int <= i by {
      MulMonotone(width as nat, x as nat);
    }
    assert i % TWO_32 == i;
    assert ToOneD(x, y, width) as int == i;
    assert i / width as int == x as int && i % width as int == y as int by {
      DivModOf(i, x as int, y as int, width as int);
    }
  }

  lemma DivModOf(i: int, q: int, m: int, w: int)
    requires w > 0 && 0 <= m < w && i == q * w + m
    ensures i / w == q && i % w == m
  {
    ModUnique(i, w, q, m);
    assert w * (i / w) + i % w == i;
    assert w * (i / w - q) == 0;
    MulAwayFromZero(w, i / w - q);
  }
}
