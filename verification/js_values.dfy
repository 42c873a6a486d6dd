/** The pieces of JavaScript value semantics the handlers rely on: values
    produced by JSON.parse, truthiness, conversion of a value to a property
    key, own-property lookup on a parsed object, decimal rendering of
    integers, and String.prototype.trim. */
module JsValues {

  /** `None` plays the part of `undefined` wherever a value may be missing. */
  datatype Option<+T> = None | Some(value: T) {
    function GetOr(default: T): T {
      match this
      case Some(v) => v
      case None => default
    }
  }

  /** Number.MAX_SAFE_INTEGER: up to it every integer is a double and is
      written out digit for digit. */
  const MaxSafeInteger: int := 0x1F_FFFF_FFFF_FFFF

  /** The integers a parsed number is restricted to here. */
  type JsInt = n: int | -MaxSafeInteger <= n <= MaxSafeInteger

  /** A value produced by JSON.parse. Numbers are restricted to safe
      integers. An object keeps its members in textual order, repetitions
      included; `Get` and `Keys` give them JSON.parse's meaning. */
  datatype Json =
    | JNull
    | JBool(b: bool)
    | JNum(n: JsInt)
    | JStr(s: string)
    | JArr(elems: seq<Json>)
    | JObj(members: seq<(string, Json)>)

  /** The falsy values of ToBoolean (section 7.1.2 of ECMA-262) that a
      parsed value can be: undefined, null, false, 0 and the empty string.
      NaN and -0 cannot arise from the integers modelled here. */
  lemma FalsyValues(v: Option<Json>)
    ensures !Truthy(v) <==>
      v.None? || v == Some(JNull) || v == Some(JBool(false)) || v == Some(JNum(0)) || v == Some(JStr(""))
  {
  }

  /** JavaScript truthiness of a possibly-undefined value. */
  predicate Truthy(v: Option<Json>) {
    match v
    case None => false
    case Some(JNull) => false
    case Some(JBool(b)) => b
    case Some(JNum(n)) => n != 0
    case Some(JStr(s)) => s != ""
    case Some(_) => true
  }

  /** Own property `key` of an object whose members are `members`: when a
      key repeats, JSON.parse keeps the last value. */
  function Get(members: seq<(string, Json)>, key: string): (r: Option<Json>)
    ensures r.None? <==> forall i :: 0 <= i < |members| ==> members[i].0 != key
    ensures r.Some? ==>
      exists i :: 0 <= i < |members| && members[i] == (key, r.value) &&
        forall j :: i < j < |members| ==> members[j].0 != key
  {
    if |members| == 0 then None
    else if members[|members| - 1].0 == key then Some(members[|members| - 1].1)
    else Get(members[..|members| - 1], key)
  }

  /** Property `key` of a parsed value that is not null: only objects have
      the properties this model reads. */
  function Property(v: Json, key: string): (r: Option<Json>)
    requires !v.JNull?
    ensures !v.JObj? ==> r == None
  {
    if v.JObj? then Get(v.members, key) else None
  }

  /** Whether some member of an object is named `k`. */
  predicate HasKey(members: seq<(string, Json)>, k: string) {
    exists i :: 0 <= i < |members| && members[i].0 == k
  }

  /** Where key `k` first occurs among `members`. */
  function FirstIndex(members: seq<(string, Json)>, k: string): (r: nat)
    requires HasKey(members, k)
    ensures r < |members| && members[r].0 == k
    ensures forall l :: 0 <= l < r ==> members[l].0 != k
  {
    if members[0].0 == k then 0
    else
      assert HasKey(members[1..], k) by {
        var i :| 0 <= i < |members| && members[i].0 == k;
        assert members[1..][i - 1] == members[i];
      }
      1 + FirstIndex(members[1..], k)
  }

  /** A key occurring in a prefix first occurs where it first occurs there. */
  lemma FirstIndexInPrefix(members: seq<(string, Json)>, n: nat, k: string)
    requires n <= |members| && HasKey(members[..n], k)
    ensures HasKey(members, k) && FirstIndex(members, k) == FirstIndex(members[..n], k)
  {
    var a := FirstIndex(members[..n], k);
    assert members[a] == members[..n][a];
  }

  /** Object.keys of a parsed object: each key once, in the order of its
      first occurrence (see `KeysInFirstOccurrenceOrder`). */
  function Keys(members: seq<(string, Json)>): (ks: seq<string>)
    ensures forall i, j :: 0 <= i < j < |ks| ==> ks[i] != ks[j]
    ensures forall k :: k in ks <==> HasKey(members, k)
  {
    if |members| == 0 then []
    else
      var init := members[..|members| - 1];
      var front := Keys(init);
      var k := members[|members| - 1].0;
      assert forall k' :: HasKey(init, k') ==> HasKey(members, k') by {
        forall k' | HasKey(init, k')
          ensures HasKey(members, k')
        {
          var i :| 0 <= i < |init| && init[i].0 == k';
          assert members[i] == init[i];
        }
      }
      if k in front then front else front + [k]
  }

  /** The keys come in the order in which each first occurs. */
  lemma {:induction false} KeysInFirstOccurrenceOrder(members: seq<(string, Json)>)
    ensures forall i, j :: 0 <= i < j < |Keys(members)| ==>
      HasKey(members, Keys(members)[i]) && HasKey(members, Keys(members)[j]) &&
      FirstIndex(members, Keys(members)[i]) < FirstIndex(members, Keys(members)[j])
  {
    if |members| > 0 {
      var n := |members| - 1;
      var init := members[..n];
      var front := Keys(init);
      var k := members[n].0;
      KeysInFirstOccurrenceOrder(init);
      forall i | 0 <= i < |front|
        ensures HasKey(members, front[i]) && FirstIndex(members, front[i]) == FirstIndex(init, front[i])
      {
        FirstIndexInPrefix(members, n, front[i]);
      }
      var ks := Keys(members);
      if k !in front {
        assert HasKey(members, k) by { assert members[n].0 == k; }
        assert FirstIndex(members, k) == n;
        assert ks == front + [k];
      } else {
        assert ks == front;
      }
      forall i, j | 0 <= i < j < |ks|
        ensures HasKey(members, ks[i]) && HasKey(members, ks[j])
        ensures FirstIndex(members, ks[i]) < FirstIndex(members, ks[j])
      {
        assert ks[i] == front[i];
        if j < |front| {
          assert ks[j] == front[j];
        }
      }
    } else {
      assert Keys(members) == [];
    }
  }

  function DigitChar(d: nat): (c: char)
    requires d < 10
    ensures '0' <= c <= '9'
  {
    ['0', '1', '2', '3', '4', '5', '6', '7', '8', '9'][d]
  }

  function DigitValue(c: char): nat
    requires '0' <= c <= '9'
  {
    (c as int) - ('0' as int)
  }

  /** The shortest decimal numeral of `n`, as Number.prototype.toString
      writes an integer. */
  function NatToDecimal(n: nat): (r: string)
    ensures |r| >= 1
    ensures forall i :: 0 <= i < |r| ==> '0' <= r[i] <= '9'
    ensures |r| > 1 ==> r[0] != '0'
    decreases n
  {
    if n < 10 then [DigitChar(n)] else NatToDecimal(n / 10) + [DigitChar(n % 10)]
  }

  /** The number a string of decimal digits denotes. */
  function DecimalValue(r: string): nat
    requires forall i :: 0 <= i < |r| ==> '0' <= r[i] <= '9'
  {
    if |r| == 0 then 0 else 10 * DecimalValue(r[..|r| - 1]) + DigitValue(r[|r| - 1])
  }

  lemma {:induction false} DecimalRoundTrip(n: nat)
    ensures DecimalValue(NatToDecimal(n)) == n
    decreases n
  {
    if n >= 10 {
      var r := NatToDecimal(n);
      assert r[..|r| - 1] == NatToDecimal(n / 10);
      assert DigitValue(r[|r| - 1]) == n % 10 by {
        DigitRoundTrip(n % 10);
      }
      DecimalRoundTrip(n / 10);
    }
  }

  lemma DigitRoundTrip(d: nat)
    requires d < 10
    ensures DigitValue(DigitChar(d)) == d
  {
  }

  function IntToDecimal(n: int): string {
    if n < 0 then "-" + NatToDecimal(-n) else NatToDecimal(n)
  }

  /** `r` is the decimal text of `n`: a '-' exactly when `n` is negative,
      then digits that read back as its magnitude. */
  predicate IsDecimalOf(r: string, n: int) {
    && (n < 0 <==> |r| > 0 && r[0] == '-')
    && var digits := if n < 0 then r[1..] else r;
    && |digits| >= 1
    && (forall i :: 0 <= i < |digits| ==> '0' <= digits[i] <= '9')
    && DecimalValue(digits) == (if n < 0 then -n else n)
  }

  /** The text of an integer reads back as that integer. */
  lemma IntToDecimalReadsBack(n: int)
    ensures IsDecimalOf(IntToDecimal(n), n)
  {
    DecimalRoundTrip(if n < 0 then -n else n);
  }

  /** Whether converting `v` to text throws a TypeError: an object with an
      own `toString` member (no parsed value is callable, and the inherited
      valueOf gives back the object), or an array holding such a value at
      any depth, since join converts each element. */
  predicate Unprintable(v: Json)
    decreases v
  {
    match v
    case JObj(ms) => HasKey(ms, "toString")
    case JArr(es) => exists i :: 0 <= i < |es| && Unprintable(es[i])
    case _ => false
  }

  /** String(v) for a value that is not `Unprintable`; an object without
      its own `toString` gives "[object Object]". */
  function ToText(v: Json): (r: string)
    ensures v.JNull? ==> r == "null"
    ensures v.JBool? ==> r == (if v.b then "true" else "false")
    ensures v.JStr? ==> r == v.s
    ensures v.JObj? ==> r == "[object Object]"
    ensures v.JNum? ==> IsDecimalOf(r, v.n)
  {
    match v
    case JNull => "null"
    case JBool(b) => if b then "true" else "false"
    case JNum(n) =>
      IntToDecimalReadsBack(n);
      IntToDecimal(n)
    case JStr(s) => s
    case JArr(elems) => JoinElements(elems)
    case JObj(_) => "[object Object]"
  }

  /** Array.prototype.join(","): null elements become empty text. */
  function JoinElements(elems: seq<Json>): string
    decreases elems
  {
    if |elems| == 0 then ""
    else
      var head := if elems[0].JNull? then "" else ToText(elems[0]);
      if |elems| == 1 then head else head + "," + JoinElements(elems[1..])
  }

  /** The property key `obj[v]` looks up for a possibly-undefined value;
      None where the conversion throws. */
  function KeyOf(v: Option<Json>): (k: Option<string>)
    ensures k.None? <==> v.Some? && Unprintable(v.value)
    ensures v.None? ==> k == Some("undefined")
    ensures v.Some? && v.value.JStr? ==> k == Some(v.value.s)
  {
    match v
    case None => Some("undefined")
    case Some(x) => if Unprintable(x) then None else Some(ToText(x))
  }

  /** The code points JavaScript's trim removes: WhiteSpace and LineTerminator. */
  predicate IsJsSpace(c: char) {
    c == '\t' || c == '\n' || c == '\U{B}' || c == '\U{C}' || c == '\r' || c == ' '
    || c == '\U{A0}' || c == '\U{1680}' || ('\U{2000}' <= c <= '\U{200A}')
    || c == '\U{2028}' || c == '\U{2029}' || c == '\U{202F}' || c == '\U{205F}'
    || c == '\U{3000}' || c == '\U{FEFF}'
  }

  /** Number of leading JavaScript spaces. */
  function LeadingSpaces(s: string): (i: nat)
    ensures i <= |s|
    ensures forall k :: 0 <= k < i ==> IsJsSpace(s[k])
    ensures i < |s| ==> !IsJsSpace(s[i])
  {
    if |s| == 0 || !IsJsSpace(s[0]) then 0 else 1 + LeadingSpaces(s[1..])
  }

  /** Number of trailing JavaScript spaces. */
  function TrailingSpaces(s: string): (i: nat)
    ensures i <= |s|
    ensures forall k :: |s| - i <= k < |s| ==> IsJsSpace(s[k])
    ensures i < |s| ==> !IsJsSpace(s[|s| - 1 - i])
  {
    if |s| == 0 || !IsJsSpace(s[|s| - 1]) then 0 else 1 + TrailingSpaces(s[..|s| - 1])
  }

  /** String.prototype.trim. */
  function Trim(s: string): (r: string)
    ensures exists i, j :: (0 <= i <= j <= |s| && r == s[i..j] &&
      (forall k :: 0 <= k < i ==> IsJsSpace(s[k])) &&
      (forall k :: j <= k < |s| ==> IsJsSpace(s[k])))
    ensures r != [] ==> !IsJsSpace(r[0]) && !IsJsSpace(r[|r| - 1])
    ensures r == [] <==> forall k :: 0 <= k < |s| ==> IsJsSpace(s[k])
    ensures forall c :: c in r ==> c in s
  {
    var i := LeadingSpaces(s);
    var rest := s[i..];
    var j := |rest| - TrailingSpaces(rest);
    assert rest[..j] == s[i..i + j];
    s[i..i + j]
  }
}
