/** The blog upload middleware's pure parts: the name an upload is stored
    under and the filter that admits only images. JavaScript strings are
    sequences of UTF-16 code units, so names are modelled as such. */
module BlogUpload {
  import opened JsValues

  /** One UTF-16 code unit. */
  newtype CodeUnit = x: int | 0 <= x < 0x1_0000

  const Underscore: CodeUnit := 0x5F
  const Hyphen: CodeUnit := 0x2D

  predicate IsDigit(c: CodeUnit) { 0x30 <= c <= 0x39 }
  predicate IsUpper(c: CodeUnit) { 0x41 <= c <= 0x5A }
  predicate IsLower(c: CodeUnit) { 0x61 <= c <= 0x7A }

  /** What the class `[a-z0-9_\-]` matches under the `i` flag. Without the
      `u` flag, case-insensitive matching never maps a non-ASCII unit onto
      an ASCII letter, so exactly the ASCII letters of either case match. */
  predicate Allowed(c: CodeUnit) {
    IsUpper(c) || IsLower(c) || IsDigit(c) || c == Underscore || c == Hyphen
  }

  /** The units a sanitised base may contain. */
  predicate IsSafe(c: CodeUnit) {
    IsLower(c) || IsDigit(c) || c == Underscore || c == Hyphen
  }

  /** `replace(/[^a-z0-9_\-]/gi, "_")`: every unit outside the class, one
      at a time (a surrogate pair is two units), becomes one underscore. */
  function ReplaceDisallowed(s: seq<CodeUnit>): (r: seq<CodeUnit>)
    ensures |r| == |s|
    ensures forall i :: 0 <= i < |s| ==> Allowed(r[i])
    ensures forall i :: 0 <= i < |s| ==> (Allowed(s[i]) <==> r[i] == s[i])
    ensures forall i :: 0 <= i < |s| && !Allowed(s[i]) ==> r[i] == Underscore
  {
    seq(|s|, i requires 0 <= i < |s| => if Allowed(s[i]) then s[i] else Underscore)
  }

  /** `toLowerCase()` restricted to ASCII: A-Z become a-z and every other
      unit stays. It agrees with toLowerCase on every string made of
      `Allowed` units, which is all it is applied to. */
  function LowerAscii(s: seq<CodeUnit>): (r: seq<CodeUnit>)
    ensures |r| == |s|
  {
    seq(|s|, i requires 0 <= i < |s| => if IsUpper(s[i]) then s[i] + 0x20 else s[i])
  }

  /** safeBase: the base name replaced and then lower-cased. */
  function SafeBase(base: seq<CodeUnit>): (r: seq<CodeUnit>)
    ensures |r| == |base|
    ensures forall i :: 0 <= i < |r| ==> IsSafe(r[i])
  {
    LowerAscii(ReplaceDisallowed(base))
  }

  /** The outcome for one unit, stated independently of the two passes. */
  function SafeUnit(c: CodeUnit): CodeUnit {
    if IsLower(c) || IsDigit(c) || c == Underscore || c == Hyphen then c
    else if IsUpper(c) then c + 0x20
    else Underscore
  }

  /** The two passes amount to a unit-by-unit rewrite: safe units stay,
      upper-case ASCII letters are lowered, everything else becomes '_'. */
  lemma SafeBaseUnitwise(base: seq<CodeUnit>)
    ensures forall i :: 0 <= i < |base| ==> SafeBase(base)[i] == SafeUnit(base[i])
  {
    var mid := ReplaceDisallowed(base);
    forall i | 0 <= i < |base| ensures SafeBase(base)[i] == SafeUnit(base[i]) {
      assert SafeBase(base)[i] == LowerAscii(mid)[i];
    }
  }

  /** A base that is already safe is left as it is. */
  lemma SafeBaseKeepsSafe(base: seq<CodeUnit>)
    requires forall i :: 0 <= i < |base| ==> IsSafe(base[i])
    ensures SafeBase(base) == base
  {
    SafeBaseUnitwise(base);
  }

  /** Sanitising twice gives what sanitising once gives. */
  lemma SafeBaseIdempotent(base: seq<CodeUnit>)
    ensures SafeBase(SafeBase(base)) == SafeBase(base)
  {
    SafeBaseKeepsSafe(SafeBase(base));
  }

  /** The decimal text of the upload time, as code units. */
  function TimestampUnits(timestamp: nat): (r: seq<CodeUnit>)
    ensures |r| == |NatToDecimal(timestamp)|
    ensures forall i :: 0 <= i < |r| ==> IsDigit(r[i])
    ensures forall i :: 0 <= i < |r| ==> r[i] as int == NatToDecimal(timestamp)[i] as int
  {
    var d := NatToDecimal(timestamp);
    seq(|d|, i requires 0 <= i < |d| => d[i] as int as CodeUnit)
  }

  /** The digits a run of decimal code units spells, as text. */
  function DigitText(r: seq<CodeUnit>): (t: string)
    requires forall i :: 0 <= i < |r| ==> IsDigit(r[i])
    ensures |t| == |r|
    ensures forall i :: 0 <= i < |t| ==> '0' <= t[i] <= '9'
  {
    seq(|r|, i requires 0 <= i < |r| && IsDigit(r[i]) => r[i] as int as char)
  }

  /** The stored name: safeBase, '_', the timestamp, then the original
      extension. The base and extension are what path.basename and
      path.extname return; the timestamp is Date.now(). */
  function Filename(base: seq<CodeUnit>, ext: seq<CodeUnit>, timestamp: nat): (name: seq<CodeUnit>)
    ensures |name| == |base| + 1 + |NatToDecimal(timestamp)| + |ext|
    ensures name[..|base|] == SafeBase(base)
    ensures name[|base|] == Underscore
    ensures name[|name| - |ext|..] == ext
    ensures forall i :: 0 <= i < |name| - |ext| ==> IsSafe(name[i])
  {
    var name := SafeBase(base) + [Underscore] + TimestampUnits(timestamp) + ext;
    assert forall i :: |base| < i < |name| - |ext| ==> name[i] == TimestampUnits(timestamp)[i - |base| - 1];
    name
  }

  /** The time segment of a stored name reads back as the timestamp: it
      sits at a position fixed by the lengths of base and extension, since
      sanitising keeps the length. */
  lemma {:induction false} FilenameTimestampRoundTrip(base: seq<CodeUnit>, ext: seq<CodeUnit>, timestamp: nat)
    ensures var name := Filename(base, ext, timestamp);
      var seg := name[|base| + 1 .. |name| - |ext|];
      && (forall i :: 0 <= i < |seg| ==> IsDigit(seg[i]))
      && DecimalValue(DigitText(seg)) == timestamp
  {
    var name := Filename(base, ext, timestamp);
    var seg := name[|base| + 1 .. |name| - |ext|];
    var tu := TimestampUnits(timestamp);
    assert seg == tu;
    var d := NatToDecimal(timestamp);
    assert DigitText(seg) == d by {
      forall i | 0 <= i < |d| ensures DigitText(seg)[i] == d[i] {
        assert seg[i] == d[i] as int as CodeUnit;
      }
    }
    DecimalRoundTrip(timestamp);
  }

  /** Two uploads of the same file at different times get different names. */
  lemma DistinctTimestampsDistinctNames(base: seq<CodeUnit>, ext: seq<CodeUnit>, t1: nat, t2: nat)
    requires t1 != t2
    ensures Filename(base, ext, t1) != Filename(base, ext, t2)
  {
    FilenameTimestampRoundTrip(base, ext, t1);
    FilenameTimestampRoundTrip(base, ext, t2);
  }

  const ImageOnly: string := "Only image uploads are allowed"

  /** What the file filter tells the upload engine. */
  datatype FilterDecision = Accept | Reject(message: string)

  /** fileFilter: an upload is kept exactly when its MIME type starts with
      "image/", compared case-sensitively. */
  function FileFilter(mimetype: string): (d: FilterDecision)
    ensures d.Accept? <==> |mimetype| >= 6 && mimetype[..6] == "image/"
    ensures d.Reject? ==> d.message == ImageOnly
  {
    if "image/" <= mimetype then Accept else Reject(ImageOnly)
  }

  /** The check is on the prefix alone and is case-sensitive: an upper-case
      type or a bare "image" is refused, any subtype is admitted. */
  lemma FileFilterCases(subtype: string)
    ensures FileFilter("image/" + subtype).Accept?
    ensures FileFilter("IMAGE/" + subtype) == Reject(ImageOnly)
    ensures FileFilter("image") == Reject(ImageOnly)
    ensures FileFilter("application/pdf") == Reject(ImageOnly)
  {
    assert ("image/" + subtype)[..6] == "image/";
    assert ("IMAGE/" + subtype)[0] == 'I';
  }
}
