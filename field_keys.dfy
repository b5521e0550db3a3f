/**
 * Turning a field label into a field key, the two ways the settings screens
 * do it: the field editors' `generateKey`, which collapses every run of
 * other characters into one underscore and trims underscores, and the
 * custom-field dialogs of the class and attendance screens, which turn
 * blank runs into an underscore and drop everything else.
 */
module FieldKeys {
  import opened Common

  /** The characters a key keeps as they are: `[a-z0-9]`. */
  predicate KeyChar(c: char) { IsLower(c) || IsDigit(c) }

  /** Only `[a-z0-9_]`. */
  predicate KeyCharset(s: string) {
    forall k | 0 <= k < |s| :: KeyChar(s[k]) || s[k] == '_'
  }

  /** No two underscores side by side. */
  predicate NoDoubleUnderscore(s: string) {
    forall k | 0 <= k < |s| - 1 :: !(s[k] == '_' && s[k + 1] == '_')
  }

  // -----------------------------------------------------------------------
  // generateKey: replace(/[^a-z0-9]+/g, '_').replace(/^_+|_+$/g, '')

  /** Drops the first character and the run of non-key characters after it. */
  function SkipRun(s: string): (r: string)
    requires s != []
    ensures |r| < |s| && r == s[|s| - |r|..]
    ensures r == [] || KeyChar(r[0])
  {
    if |s| == 1 || KeyChar(s[1]) then s[1..] else SkipRun(s[1..])
  }

  /** Every maximal run of characters outside `[a-z0-9]` becomes one underscore. */
  function Collapse(s: string): (r: string)
    ensures KeyCharset(r) && NoDoubleUnderscore(r)
    ensures r == [] <==> s == []
    ensures s != [] && KeyChar(s[0]) ==> r[0] == s[0]
    decreases |s|
  {
    if s == [] then []
    else if KeyChar(s[0]) then [s[0]] + Collapse(s[1..])
    else "_" + Collapse(SkipRun(s))
  }

  /** `replace(/^_+/, '')`. */
  function StripLeading(s: string): (r: string)
    ensures |r| <= |s| && r == s[|s| - |r|..]
    ensures r == [] || r[0] != '_'
  {
    if s != [] && s[0] == '_' then StripLeading(s[1..]) else s
  }

  /** `replace(/_+$/, '')`. */
  function StripTrailing(s: string): (r: string)
    ensures |r| <= |s| && r == s[..|r|]
    ensures r == [] || r[|r| - 1] != '_'
  {
    if s != [] && s[|s| - 1] == '_' then StripTrailing(s[..|s| - 1]) else s
  }

  /** `generateKey` of the field editors. */
  function GenerateKey(text: string): string {
    StripTrailing(StripLeading(Collapse(Lower(text))))
  }

  /** A key is well formed: `[a-z0-9_]` only, no underscore at either end, no two in a row. */
  predicate WellFormedKey(s: string) {
    KeyCharset(s) && NoDoubleUnderscore(s) && (s == [] || (s[0] != '_' && s[|s| - 1] != '_'))
  }

  lemma GenerateKeyWellFormed(text: string)
    ensures WellFormedKey(GenerateKey(text))
  {
    var c := Collapse(Lower(text));
    var a := StripLeading(c);
    var r := StripTrailing(a);
    SuffixKeeps(c, a);
    PrefixKeeps(a, r);
    if r != [] {
      assert r[0] == a[0];
    }
  }

  /** A tail of a collapsed string is collapsed. */
  lemma SuffixKeeps(s: string, t: string)
    requires |t| <= |s| && t == s[|s| - |t|..]
    requires KeyCharset(s) && NoDoubleUnderscore(s)
    ensures KeyCharset(t) && NoDoubleUnderscore(t)
  {
    var off := |s| - |t|;
    assert forall k | 0 <= k < |t| :: t[k] == s[off + k];
  }

  /** A head of a collapsed string is collapsed. */
  lemma PrefixKeeps(s: string, t: string)
    requires |t| <= |s| && t == s[..|t|]
    requires KeyCharset(s) && NoDoubleUnderscore(s)
    ensures KeyCharset(t) && NoDoubleUnderscore(t)
  {
    assert forall k | 0 <= k < |t| :: t[k] == s[k];
  }

  /** Collapsing changes nothing in a string that is already collapsed. */
  lemma {:induction false} CollapseFixed(s: string)
    requires KeyCharset(s) && NoDoubleUnderscore(s)
    ensures Collapse(s) == s
    decreases |s|
  {
    if s != [] {
      assert KeyCharset(s[1..]) && NoDoubleUnderscore(s[1..]);
      CollapseFixed(s[1..]);
      if !KeyChar(s[0]) {
        assert SkipRun(s) == s[1..];
      }
      assert s == [s[0]] + s[1..];
    }
  }

  /** A key has no upper-case letters, so lower-casing leaves it alone. */
  lemma LowerKeyCharset(s: string)
    requires KeyCharset(s)
    ensures Lower(s) == s
  {
  }

  /** `generateKey(generateKey(x)) == generateKey(x)`. */
  lemma GenerateKeyIdempotent(text: string)
    ensures GenerateKey(GenerateKey(text)) == GenerateKey(text)
  {
    var k := GenerateKey(text);
    GenerateKeyWellFormed(text);
    LowerKeyCharset(k);
    CollapseFixed(k);
  }

  // -----------------------------------------------------------------------
  // The custom-field dialogs: replace(/\s+/g, '_').replace(/[^a-z0-9_]/g, '')

  /** Every maximal run of blanks becomes one underscore. */
  function BlankRunsToUnderscore(s: string): (r: string)
    ensures forall k | 0 <= k < |r| :: !IsSpace(r[k])
    ensures (forall k | 0 <= k < |s| :: !IsSpace(s[k])) ==> r == s
    decreases |s|
  {
    if s == [] then []
    else if IsSpace(s[0]) then "_" + BlankRunsToUnderscore(SkipBlanks(s[1..]))
    else [s[0]] + BlankRunsToUnderscore(s[1..])
  }

  /** The string after its leading blanks. */
  function SkipBlanks(s: string): (r: string)
    ensures |r| <= |s|
    decreases |s|
  {
    if s != [] && IsSpace(s[0]) then SkipBlanks(s[1..]) else s
  }

  /** Drops every character outside `[a-z0-9_]`. */
  function KeepKeyChars(s: string): (r: string)
    ensures KeyCharset(r) && |r| <= |s|
    ensures KeyCharset(s) ==> r == s
  {
    if s == [] then []
    else if KeyChar(s[0]) || s[0] == '_' then [s[0]] + KeepKeyChars(s[1..])
    else KeepKeyChars(s[1..])
  }

  /** The key the class and attendance custom-field dialogs derive from a label. */
  function CustomFieldKey(text: string): (r: string)
    ensures KeyCharset(r)
  {
    KeepKeyChars(BlankRunsToUnderscore(Lower(text)))
  }

  /** Deriving again from a derived key gives the same key. */
  lemma CustomFieldKeyIdempotent(text: string)
    ensures CustomFieldKey(CustomFieldKey(text)) == CustomFieldKey(text)
  {
    var k := CustomFieldKey(text);
    LowerKeyCharset(k);
  }

  /** Unlike `generateKey`, the dialogs can produce two underscores in a row. */
  lemma CustomFieldKeyDoubleUnderscore()
    ensures CustomFieldKey("a - b") == "a__b"
    ensures !NoDoubleUnderscore(CustomFieldKey("a - b"))
  {
    LowerKeepsSample();
    BlankRunsSample();
    KeepKeyCharsSample();
    assert "a__b"[1] == '_' && "a__b"[2] == '_';
  }

  lemma LowerKeepsSample()
    ensures Lower("a - b") == "a - b"
  {
    var s := "a - b";
    assert forall k | 0 <= k < |s| :: !IsUpper(s[k]);
  }

  lemma BlankRunsSample()
    ensures BlankRunsToUnderscore("a - b") == "a_-_b"
  {
    assert SkipBlanks("b") == "b";
    assert BlankRunsToUnderscore("b") == "b";
    assert BlankRunsToUnderscore(" b") == "_b";
    assert BlankRunsToUnderscore("- b") == "-_b";
    assert SkipBlanks("- b") == "- b";
  }

  lemma KeepKeyCharsSample()
    ensures KeepKeyChars("a_-_b") == "a__b"
  {
    assert KeepKeyChars("b") == "b";
    assert KeepKeyChars("_b") == "_b";
    assert KeepKeyChars("-_b") == "_b";
  }
}
