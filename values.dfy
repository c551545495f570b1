/** JavaScript values as the collection sees them: the primitive values a record's
    fields hold, their truthiness, the property name a value turns into when it is
    used as a key of a plain object, and the field maps of records. */
module Values {

  datatype Option<+T> = None | Some(value: T)

  /** The primitive values a field can hold. Numbers are integers here, written out
      in full: the doubles' limits (no integer beyond 2^53 is exact, and from 10^21 on
      `String(n)` switches to exponent form) are not modelled. */
  datatype Value = Undefined | Null | Bool(b: bool) | Num(n: int) | Str(s: string)

  /** JavaScript truthiness: `undefined`, `null`, `false`, `0` and `""` are falsy. */
  predicate Truthy(v: Value) {
    match v
    case Undefined => false
    case Null => false
    case Bool(b) => b
    case Num(n) => n != 0
    case Str(s) => s != ""
  }

  function DigitChar(d: nat): char
    requires d < 10
  {
    "0123456789"[d]
  }

  function DigitOf(c: char): nat {
    if '0' <= c <= '9' then (c - '0') as nat else 0
  }

  /** The decimal numeral of `n`, as `Number.prototype.toString()` writes an integer
      below 10^21. */
  function Decimal(n: nat): (s: string)
    ensures |s| >= 1
    ensures forall i :: 0 <= i < |s| ==> '0' <= s[i] <= '9'
    decreases n
  {
    if n < 10 then [DigitChar(n)] else Decimal(n / 10) + [DigitChar(n % 10)]
  }

  /** The number a decimal numeral denotes. */
  function DecimalValue(s: string): nat
    decreases |s|
  {
    if s == [] then 0 else DecimalValue(s[..|s| - 1]) * 10 + DigitOf(s[|s| - 1])
  }

  lemma {:induction false} DecimalRoundTrip(n: nat)
    ensures DecimalValue(Decimal(n)) == n
    decreases n
  {
    if n >= 10 {
      var s := Decimal(n);
      assert s[..|s| - 1] == Decimal(n / 10);
      DigitRoundTrip(n % 10);
      DecimalRoundTrip(n / 10);
      assert DecimalValue(s) == DecimalValue(Decimal(n / 10)) * 10 + n % 10;
    } else {
      DigitRoundTrip(n);
    }
  }

  lemma DigitRoundTrip(d: nat)
    requires d < 10
    ensures DigitOf(DigitChar(d)) == d
  {
  }

  /** `String(v)`: the property name that `hash[v]` reads or writes. */
  function Key(v: Value): string {
    match v
    case Undefined => "undefined"
    case Null => "null"
    case Bool(b) => if b then "true" else "false"
    case Num(n) => if n < 0 then "-" + Decimal(-n) else Decimal(n)
    case Str(s) => s
  }

  /** The number a numeric id's property name denotes: the inverse of `Key` on numbers. */
  function NumberOfKey(k: string): int {
    var negative := |k| > 0 && k[0] == '-';
    var magnitude := DecimalValue(if negative then k[1..] else k);
    if negative then 0 - magnitude else magnitude
  }

  lemma NumKeyRoundTrip(n: int)
    ensures NumberOfKey(Key(Num(n))) == n
  {
    if n < 0 {
      NegativeKeyRoundTrip(n);
    } else {
      NatKeyRoundTrip(n);
    }
  }

  lemma NegativeKeyRoundTrip(n: int)
    requires n < 0
    ensures NumberOfKey(Key(Num(n))) == n
  {
    var m: nat := -n;
    var d := Decimal(m);
    var k := "-" + d;
    assert Key(Num(n)) == k;
    assert k[1..] == d;
    DecimalRoundTrip(m);
  }

  lemma NatKeyRoundTrip(n: nat)
    ensures NumberOfKey(Key(Num(n))) == n
  {
    var d := Decimal(n);
    assert Key(Num(n)) == d;
    assert d[0] != '-';
    DecimalRoundTrip(n);
  }

  /** Two different numeric ids never share a property name. */
  lemma NumKeysInjective(m: int, n: int)
    requires Key(Num(m)) == Key(Num(n))
    ensures m == n
  {
    NumKeyRoundTrip(m);
    NumKeyRoundTrip(n);
  }

  /** `v[name]` for a primitive `v`: a string has its `length` and a character at each
      index; every other property of a primitive is taken to be `undefined`. */
  function PrimitiveProperty(v: Value, name: string): (p: Value)
    ensures v.Str? && name == "length" ==> p == Num(|v.s|)
    ensures !v.Str? ==> p == Undefined
    ensures p.Undefined? || p.Num? || (p.Str? && |p.s| == 1)
  {
    match v
    case Str(s) =>
      if name == "length" then Num(|s|)
      else
        var k := DecimalValue(name);
        if Decimal(k) == name && k < |s| then Str([s[k]]) else Undefined
    case _ => Undefined
  }

  /** Reading the index `k` of a string gives its `k`-th character. */
  lemma PrimitiveIndex(s: string, k: nat)
    requires k < |s|
    ensures PrimitiveProperty(Str(s), Decimal(k)) == Str([s[k]])
  {
    DecimalRoundTrip(k);
    assert Decimal(k) != "length" by {
      assert '0' <= Decimal(k)[0] <= '9';
    }
  }

  /** A record's own enumerable properties. A field that is absent reads as `undefined`. */
  type Fields = map<string, Value>

  /** `obj[k]`. */
  function Field(f: Fields, k: string): Value {
    if k in f then f[k] else Undefined
  }

  /** The key `ng-repeat` writes on every object it renders. */
  const HashKey := "$$hashKey"

  /** `angular.extend(dst, src)`: every own field of `src` is copied onto `dst`,
      overwriting, and the fields of `dst` that `src` lacks are kept; the exception is
      `$$hashKey`, which `extend` saves before copying and puts back afterwards, so
      `dst` keeps its own and never takes `src`'s. */
  function Extend(dst: Fields, src: Fields): (r: Fields)
    ensures r.Keys == dst.Keys + (src.Keys - {HashKey})
    ensures forall k :: k in src && k != HashKey ==> r[k] == src[k]
    ensures forall k :: k in dst && (k !in src || k == HashKey) ==> r[k] == dst[k]
  {
    dst + map k | k in src && k != HashKey :: src[k]
  }

  /** The predicate `where` builds from a comparison object: every key of `pattern`
      holds a value strictly equal (`===`) to the record's field of that name. */
  predicate Matches(pattern: Fields, f: Fields) {
    forall k :: k in pattern ==> pattern[k] == Field(f, k)
  }

  /** The three shapes of `where`'s first argument: a function, a field name with
      the value it must hold, or a comparison object. Any other argument (a number,
      `null`) enumerates no keys and so behaves as `Pattern(map[])`. */
  datatype Expr =
    | Callable(p: Fields -> bool)
    | FieldIs(name: string, value: Value)
    | Pattern(pattern: Fields)

  /** The comparison object a non-function expression stands for. */
  function CompareObject(e: Expr): (c: Fields)
    requires !e.Callable?
    ensures e.FieldIs? ==> c.Keys == {e.name} && c[e.name] == e.value
    ensures e.Pattern? ==> c == e.pattern
  {
    if e.FieldIs? then map[e.name := e.value] else e.pattern
  }

  /** `compareFn(record)` as `where` builds it. */
  predicate Test(e: Expr, f: Fields) {
    match e
    case Callable(p) => p(f)
    case _ => Matches(CompareObject(e), f)
  }

  lemma FieldIsMeansEqual(name: string, value: Value, f: Fields)
    ensures Test(FieldIs(name, value), f) <==> Field(f, name) == value
  {
    var c := CompareObject(FieldIs(name, value));
    if Field(f, name) == value {
      assert Matches(c, f);
    } else {
      assert name in c;
    }
  }

  /** A comparison object with no keys accepts every record. */
  lemma EmptyPatternMatchesAll(f: Fields)
    ensures Test(Pattern(map[]), f)
  {
  }
}
