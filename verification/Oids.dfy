/** Object identifiers as text. */
module Oids {
  import opened Basics

  predicate IsDigit(c: char) {
    '0' <= c <= '9'
  }

  /** What Python takes for white space. */
  predicate IsBlank(c: char) {
    || '\t' <= c <= '\r' || '\U{1C}' <= c <= ' ' || c == '\U{85}' || c == '\U{A0}' || c == '\U{1680}'
    || '\U{2000}' <= c <= '\U{200A}' || c == '\U{2028}' || c == '\U{2029}' || c == '\U{202F}' || c == '\U{205F}'
    || c == '\U{3000}'
  }

  /** Text without the blanks around it. */
  function Strip(s: string): string
    decreases |s|
  {
    if s == [] then s
    else if IsBlank(s[0]) then Strip(s[1..])
    else if IsBlank(s[|s| - 1]) then Strip(s[..|s| - 1])
    else s
  }

  /** The blanks, one by one. */
  lemma BlanksAre(c: char)
    ensures IsBlank(c) <==>
            c in {'\t', '\n', '\U{0B}', '\U{0C}', '\r', '\U{1C}', '\U{1D}', '\U{1E}', '\U{1F}', ' ',
                  '\U{85}', '\U{A0}', '\U{1680}', '\U{2000}', '\U{2001}', '\U{2002}', '\U{2003}',
                  '\U{2004}', '\U{2005}', '\U{2006}', '\U{2007}', '\U{2008}', '\U{2009}', '\U{200A}',
                  '\U{2028}', '\U{2029}', '\U{202F}', '\U{205F}', '\U{3000}'}
  {
  }

  /** Stripping takes blanks off both ends, all of them, and nothing else. */
  lemma {:induction false} StripExactly(s: string) returns (before: string, after: string)
    ensures s == before + Strip(s) + after
    ensures forall c :: c in before || c in after ==> IsBlank(c)
    ensures Strip(s) != [] ==> !IsBlank(Strip(s)[0]) && !IsBlank(Strip(s)[|Strip(s)| - 1])
    decreases |s|
  {
    hide IsBlank;
    before, after := [], [];
    if s != [] && IsBlank(s[0]) {
      before, after := StripExactly(s[1..]);
      assert s == [s[0]] + s[1..];
      before := [s[0]] + before;
    } else if s != [] && IsBlank(s[|s| - 1]) {
      before, after := StripExactly(s[..|s| - 1]);
      assert s == s[..|s| - 1] + [s[|s| - 1]];
      after := after + [s[|s| - 1]];
    }
  }

  /** At least two groups of digits with single dots between them. */
  predicate Dotted(s: string) {
    && |s| > 0 && IsDigit(s[0]) && IsDigit(s[|s| - 1]) && '.' in s
    && (forall i :: 0 <= i < |s| ==> IsDigit(s[i]) || s[i] == '.')
    && (forall i :: 0 <= i < |s| - 1 && s[i] == '.' ==> s[i + 1] != '.')
  }

  /** The one spelling of an identifier, or nothing for text that is not one; a leading dot is allowed. */
  function CanonicalOid(value: string): (r: Option<string>)
    ensures r.Some? ==> Dotted(r.value)
  {
    var oid := Strip(value);
    var bare := if oid != [] && oid[0] == '.' then oid[1..] else oid;
    if Dotted(bare) then Some(bare) else None
  }

  lemma DottedIsCanonical(oid: string)
    requires Dotted(oid)
    ensures CanonicalOid(oid) == Some(oid)
  {
  }

  lemma {:induction false} DecimalIsDigits(n: nat)
    ensures forall i :: 0 <= i < |Decimal(n)| ==> IsDigit(Decimal(n)[i])
  {
    if n >= 10 {
      DecimalIsDigits(n / 10);
    }
  }

  /** Appending a numbered group keeps the spelling canonical. */
  lemma DottedAppend(base: string, n: nat)
    requires Dotted(base)
    ensures Dotted(base + "." + Decimal(n))
  {
    DecimalIsDigits(n);
    var s := base + "." + Decimal(n);
    assert s[|base|] == '.' && s[|base| + 1] == Decimal(n)[0];
    assert s[|s| - 1] == Decimal(n)[|Decimal(n)| - 1];
    forall i | 0 <= i < |s|
      ensures IsDigit(s[i]) || s[i] == '.'
      ensures i < |s| - 1 && s[i] == '.' ==> s[i + 1] != '.'
    {
      if i < |base| - 1 {
        assert s[i] == base[i] && s[i + 1] == base[i + 1];
      } else if i > |base| {
        assert s[i] == Decimal(n)[i - |base| - 1];
      }
    }
  }
}
