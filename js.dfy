/** The small part of JavaScript's value semantics that the request handlers
    depend on: truthiness, `typeof`, the `||` default idiom and
    `String.prototype.trim`.

    Values are the ones a JSON request body or a JSON file can hold, plus
    `undefined` for a property that is absent. Numbers are integers here;
    arrays and objects are lumped together as `Compound`, since the handlers
    only ever test them for truthiness (always true) and store them. */
module Js {

  datatype Value =
    | Undefined
    | Null
    | Bool(b: bool)
    | Num(n: int)
    | Str(s: string)
    | Compound

  /** `!!v`: everything is truthy except undefined, null, false, 0 and "". */
  predicate Truthy(v: Value) {
    match v
    case Undefined => false
    case Null => false
    case Bool(b) => b
    case Num(n) => n != 0
    case Str(s) => s != ""
    case Compound => true
  }

  /** `typeof v === 'number'` */
  predicate IsNumber(v: Value) { v.Num? }

  /** `typeof v === 'string'` */
  predicate IsString(v: Value) { v.Str? }

  /** `typeof v === 'undefined'` */
  predicate IsUndefined(v: Value) { v.Undefined? }

  /** `a || b`: the first operand when it is truthy, the second one otherwise. */
  function Or(a: Value, b: Value): (r: Value)
    ensures Truthy(b) ==> Truthy(r)
    ensures r == a || r == b
    ensures Truthy(a) <==> r == a && Truthy(r)
  {
    if Truthy(a) then a else b
  }

  /** The characters `trim` removes: ECMAScript's WhiteSpace (tab, vertical
      tab, form feed, space, no-break space, byte order mark and every other
      character of Unicode category Zs) and LineTerminator (line feed,
      carriage return, line and paragraph separators). */
  predicate IsWhitespace(c: char) {
    var k := c as int;
    k == 0x0009 || k == 0x000A || k == 0x000B || k == 0x000C || k == 0x000D ||
    k == 0x0020 || k == 0x00A0 || k == 0x1680 || (0x2000 <= k <= 0x200A) ||
    k == 0x2028 || k == 0x2029 || k == 0x202F || k == 0x205F || k == 0x3000 ||
    k == 0xFEFF
  }

  predicate AllWhitespace(s: string) {
    forall k :: 0 <= k < |s| ==> IsWhitespace(s[k])
  }

  /** Where the text of `s` starts when scanning from `i`: the first
      position at or after `i` that does not hold whitespace, or `|s|`. */
  function StartOfText(s: string, i: nat): (a: nat)
    requires i <= |s|
    ensures i <= a <= |s|
    ensures forall k :: i <= k < a ==> IsWhitespace(s[k])
    ensures a == |s| || !IsWhitespace(s[a])
    decreases |s| - i
  {
    if i < |s| && IsWhitespace(s[i]) then StartOfText(s, i + 1) else i
  }

  /** Where the text of `s[a..j]` ends: the smallest `b` between `a` and `j`
      such that everything from `b` up to `j` is whitespace. */
  function EndOfText(s: string, a: nat, j: nat): (b: nat)
    requires a <= j <= |s|
    ensures a <= b <= j
    ensures forall k :: b <= k < j ==> IsWhitespace(s[k])
    ensures b == a || !IsWhitespace(s[b - 1])
    decreases j
  {
    if a < j && IsWhitespace(s[j - 1]) then EndOfText(s, a, j - 1) else j
  }

  /** `s.trim()`: the slice of `s` left after whitespace is stripped from
      both ends. */
  function Trim(s: string): (r: string)
    ensures r == [] || (!IsWhitespace(r[0]) && !IsWhitespace(r[|r| - 1]))
  {
    var a := StartOfText(s, 0);
    s[a..EndOfText(s, a, |s|)]
  }

  /** Trim keeps one contiguous slice of `s`, and everything it drops on
      either side is whitespace. */
  lemma TrimIsSlice(s: string)
    ensures var a := StartOfText(s, 0);
      var b := EndOfText(s, a, |s|);
      Trim(s) == s[a..b] &&
      (forall k :: 0 <= k < a ==> IsWhitespace(s[k])) &&
      (forall k :: b <= k < |s| ==> IsWhitespace(s[k]))
  {
  }

  /** A string is blank after trimming exactly when it is all whitespace. */
  lemma TrimEmptyIff(s: string)
    ensures Trim(s) == [] <==> AllWhitespace(s)
  {
    var a := StartOfText(s, 0);
    var b := EndOfText(s, a, |s|);
    if Trim(s) == [] {
      // An empty slice would otherwise begin with a non-whitespace
      // character that the end scan skipped over.
      assert b == a;
      assert a == |s|;
    } else {
      assert s[a..b][0] == s[a];
    }
  }

  /** A string with no whitespace at either end is left as it is. */
  lemma TrimFixesTrimmed(s: string)
    requires s == [] || (!IsWhitespace(s[0]) && !IsWhitespace(s[|s| - 1]))
    ensures Trim(s) == s
  {
    assert StartOfText(s, 0) == 0;
    assert EndOfText(s, 0, |s|) == |s|;
  }

  /** Trimming twice is trimming once. */
  lemma TrimIdempotent(s: string)
    ensures Trim(Trim(s)) == Trim(s)
  {
    TrimFixesTrimmed(Trim(s));
  }
}
