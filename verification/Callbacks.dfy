/** The hash and comparison callbacks a map is built with (hashmap.h).
    Keys and values are C pointers; what a string pointer points at is given by a `text` function. */
module Callbacks {

  /** A `void *`: an address, where 0 is NULL. */
  type Pointer = nat

  const NULL: Pointer := 0

  /** 2^32, the range of C's `unsigned`. */
  const WORD := 0x1_0000_0000

  type Unsigned = n: nat | n < 0x1_0000_0000

  /** Conversion of any integer to `unsigned`: reduction modulo 2^32 (this also sign-extends). */
  function Wrap(n: int): Unsigned {
    n % WORD
  }

  /** The callbacks of a map. A missing cleanup callback is a false flag. */
  datatype Callbacks = Callbacks(
    hash: Pointer -> Unsigned,
    compare: (Pointer, Pointer) -> bool,
    keyFree: bool,
    valueFree: bool)

  /** What the map relies on: on non-NULL keys `compare` is an equivalence that `hash` respects,
      and the NULL left behind in a cleared entry matches no such key. */
  ghost predicate Legal(cb: Callbacks) {
    && (forall a: Pointer :: a != NULL ==> cb.compare(a, a))
    && (forall a: Pointer, b: Pointer :: a != NULL && b != NULL && cb.compare(a, b) ==> cb.compare(b, a))
    && (forall a: Pointer, b: Pointer, c: Pointer ::
          a != NULL && b != NULL && c != NULL && cb.compare(a, b) && cb.compare(b, c) ==> cb.compare(a, c))
    && (forall a: Pointer, b: Pointer :: a != NULL && b != NULL && cb.compare(a, b) ==> cb.hash(a) == cb.hash(b))
    && (forall k: Pointer :: k != NULL ==> !cb.compare(NULL, k))
  }

  // ---------------------------------------------------------------- pointer keys

  function SimpleCallbacks(keyFree: bool, valueFree: bool): Callbacks {
    Callbacks((p: Pointer) => Wrap(p), (l: Pointer, r: Pointer) => l == r, keyFree, valueFree)
  }

  // ---------------------------------------------------------------- string keys

  /** A `signed char` other than the terminator. */
  type CChar = c: int | -128 <= c < 128 && c != 0 witness 1

  type CString = seq<CChar>

  /** One round of the loop: shift left by five, add the hash, add the sign-extended character,
      each in 32-bit arithmetic. */
  function HashStep(h: Unsigned, c: CChar): Unsigned {
    Wrap(Wrap(Wrap(h * 32) + h) + Wrap(c))
  }

  function HashOf(s: CString): Unsigned {
    if s == [] then 5381 else HashStep(HashOf(s[..|s| - 1]), s[|s| - 1])
  }

  function Pow33(n: nat): nat {
    if n == 0 then 1 else 33 * Pow33(n - 1)
  }

  /** The sum of s[i] * 33^(|s| - 1 - i), over the integers. */
  function Digits(s: CString): int {
    if s == [] then 0 else s[0] * Pow33(|s| - 1) + Digits(s[1..])
  }

  /** h * 33^n */
  function Scaled(h: int, n: nat): (r: int)
    ensures n == 0 ==> r == h
  {
    if n == 0 then h else 33 * Scaled(h, n - 1)
  }

  lemma {:induction false} ScaledIsProduct(h: int, n: nat)
    ensures Scaled(h, n) == h * Pow33(n)
  {
    if n > 0 {
      ScaledIsProduct(h, n - 1);
      assert h * (33 * Pow33(n - 1)) == 33 * (h * Pow33(n - 1));
    }
  }

  lemma {:induction false} DigitsSnoc(s: CString, c: CChar)
    ensures Digits(s + [c]) == 33 * Digits(s) + c
  {
    if s == [] {
      assert Digits([c]) == c * Pow33(0) + Digits([]) by { assert [c][1..] == []; }
    } else {
      DigitsSnoc(s[1..], c);
      assert (s + [c])[1..] == s[1..] + [c];
      assert s[0] * (33 * Pow33(|s| - 1)) == 33 * (s[0] * Pow33(|s| - 1));
    }
  }

  lemma SameResidue(a: int, b: int, q: int)
    requires a == b + WORD * q
    ensures Wrap(a) == Wrap(b)
  {
    assert WORD * (a / WORD) + Wrap(a) == a && WORD * (b / WORD) + Wrap(b) == b;
  }

  lemma StepIsHorner(p: int, c: CChar)
    ensures HashStep(Wrap(p), c) == Wrap(33 * p + c)
  {
    var w: int := Wrap(p);
    var a: int := Wrap(w * 32);
    SameResidue(Wrap(a + w) + Wrap(c), 33 * p + c,
      -33 * (p / WORD) - w * 32 / WORD - (a + w) / WORD - c / WORD);
  }

  lemma HashSnoc(s: CString, c: CChar)
    ensures HashOf(s + [c]) == HashStep(HashOf(s), c)
  {
    assert (s + [c])[..|s|] == s;
  }

  /** h * 33^|t| + Digits(t): what hashing t after a string with hash h comes to, over the integers. */
  function Total(h: int, t: CString): int {
    Scaled(h, |t|) + Digits(t)
  }

  lemma TotalNext(h: int, t: CString, c: CChar)
    ensures Total(h, t + [c]) == 33 * Total(h, t) + c
  {
    DigitsSnoc(t, c);
  }

  lemma HashNext(s: CString, p: int, c: CChar)
    requires HashOf(s) == Wrap(p)
    ensures HashOf(s + [c]) == Wrap(33 * p + c)
  {
    HashSnoc(s, c);
    StepIsHorner(p, c);
  }

  lemma TotalNone(h: Unsigned)
    ensures Wrap(Total(h, [])) == h
  {
  }

  lemma HashFromNext(s: CString, t: CString, c: CChar)
    requires HashOf(s + t) == Wrap(Total(HashOf(s), t))
    ensures HashOf(s + (t + [c])) == Wrap(Total(HashOf(s), t + [c]))
  {
    HashNext(s + t, Total(HashOf(s), t), c);
    TotalNext(HashOf(s), t, c);
    assert s + (t + [c]) == s + t + [c];
  }

  lemma {:induction false} HashFrom(s: CString, t: CString)
    ensures HashOf(s + t) == Wrap(Total(HashOf(s), t))
  {
    if t == [] {
      assert s + t == s;
      TotalNone(HashOf(s));
    } else {
      HashFrom(s, t[..|t| - 1]);
      HashFromNext(s, t[..|t| - 1], t[|t| - 1]);
      assert t == t[..|t| - 1] + [t[|t| - 1]];
    }
  }

  /** Hashing a concatenation continues from the hash of the first part. */
  lemma {:induction false} HashConcat(s: CString, t: CString)
    ensures HashOf(s + t) == Wrap(HashOf(s) * Pow33(|t|) + Digits(t))
  {
    HashFrom(s, t);
    ScaledIsProduct(HashOf(s), |t|);
  }

  /** The shift-and-add loop computes the polynomial 5381*33^n + sum of s[i]*33^(n-1-i), modulo 2^32. */
  lemma {:induction false} HashIsPolynomial(s: CString)
    ensures HashOf(s) == Wrap(5381 * Pow33(|s|) + Digits(s))
  {
    HashConcat([], s);
    assert [] + s == s;
  }

  method StringHash(s: CString) returns (hash: Unsigned)
    ensures hash == HashOf(s)
    ensures hash == Wrap(5381 * Pow33(|s|) + Digits(s))
  {
    hash := 5381;
    for i := 0 to |s|
      invariant hash == HashOf(s[..i])
    {
      assert s[..i + 1][..i] == s[..i];
      hash := HashStep(hash, s[i]);
    }
    assert s[..|s|] == s;
    HashIsPolynomial(s);
  }

  function StringCallbacks(text: Pointer -> CString, keyFree: bool, valueFree: bool): Callbacks {
    Callbacks(
      (p: Pointer) => HashOf(text(p)),
      (l: Pointer, r: Pointer) => l != NULL && r != NULL && text(l) == text(r),
      keyFree, valueFree)
  }

  /** What the stock callbacks are: which keys they tell apart, where they put them, and that each cleanup
      flag is its own. */
  lemma StockCallbacksAre(text: Pointer -> CString, keyFree: bool, valueFree: bool)
    ensures var cb := SimpleCallbacks(keyFree, valueFree);
      && (forall l: Pointer, r: Pointer :: cb.compare(l, r) <==> l == r)
      && (forall p: Pointer :: cb.hash(p) == p % 0x1_0000_0000)
      && cb.keyFree == keyFree && cb.valueFree == valueFree
    ensures var cb := StringCallbacks(text, keyFree, valueFree);
      && (forall l: Pointer, r: Pointer :: cb.compare(l, r) <==> l != NULL && r != NULL && text(l) == text(r))
      && (forall p: Pointer :: cb.hash(p) == (5381 * Pow33(|text(p)|) + Digits(text(p))) % 0x1_0000_0000)
      && cb.keyFree == keyFree && cb.valueFree == valueFree
  {
    forall p: Pointer
      ensures HashOf(text(p)) == (5381 * Pow33(|text(p)|) + Digits(text(p))) % 0x1_0000_0000
    {
      HashIsPolynomial(text(p));
    }
  }

  /** Both stock callback pairs meet the contract, so strings that compare equal hash equally. */
  lemma StockCallbacksLegal(text: Pointer -> CString, keyFree: bool, valueFree: bool)
    ensures Legal(SimpleCallbacks(keyFree, valueFree))
    ensures Legal(StringCallbacks(text, keyFree, valueFree))
  {
    var cb := StringCallbacks(text, keyFree, valueFree);
    forall a: Pointer, b: Pointer | a != NULL && b != NULL && cb.compare(a, b)
      ensures cb.hash(a) == cb.hash(b)
    {
      assert text(a) == text(b);
    }
  }
}
