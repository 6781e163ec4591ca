/**
 * The naming rules of the vibe-standards linter: the two regular-expression
 * tests it applies to a bare file or directory name, the CJK test that both
 * rules add, and the hyphen-stripping "suggestion" offered for a document
 * that breaks the rule.
 *
 * A name is a `string` (a sequence of characters). The source tests its
 * patterns on JavaScript strings; every character class involved lies in the
 * Basic Multilingual Plane, so testing them per Dafny character gives the
 * same answers.
 */
module NamingRules {

  /** A character of the class `[a-zA-Z0-9\-_.]` used by the document rule. */
  predicate IsDocNameChar(c: char) {
    ('a' <= c <= 'z') || ('A' <= c <= 'Z') || ('0' <= c <= '9') || c == '-' || c == '_' || c == '.'
  }

  /** A character of the class `[a-z0-9\-]` used by the code-directory rule. */
  predicate IsKebabChar(c: char) {
    ('a' <= c <= 'z') || ('0' <= c <= '9') || c == '-'
  }

  /** A character of the range U+4E00..U+9FA5 (`[一-龥]`). */
  predicate IsCjk(c: char) {
    '\U{4E00}' <= c <= '\U{9FA5}'
  }

  /** `/[一-龥]/.test(name)`: some character is in the CJK range. */
  predicate HasChinese(name: string) {
    exists i :: 0 <= i < |name| && IsCjk(name[i])
  }

  /** `/^[a-zA-Z0-9\-_.]+$/.test(name)`: non-empty and made only of document-class characters. */
  predicate IsEnglishOnly(name: string) {
    |name| > 0 && forall i :: 0 <= i < |name| ==> IsDocNameChar(name[i])
  }

  /** `/^[a-z0-9\-]+$/.test(name)`: non-empty and made only of kebab-case characters. */
  predicate IsKebabCase(name: string) {
    |name| > 0 && forall i :: 0 <= i < |name| ==> IsKebabChar(name[i])
  }

  /** `file.endsWith('.md')`. */
  predicate EndsWithMd(name: string) {
    |name| >= 3 && name[|name| - 3..] == ".md"
  }

  /**
   * The document rule as the source writes it: `isEnglishOnly && !hasChinese`.
   * Its contract says that the CJK conjunct adds nothing: a name is a
   * violation exactly when it is non-empty and every character is in
   * `[a-zA-Z0-9\-_.]`.
   */
  predicate IsDocViolation(name: string): (r: bool)
    ensures r <==> |name| > 0 && forall i :: 0 <= i < |name| ==> IsDocNameChar(name[i])
  {
    IsEnglishOnly(name) && !HasChinese(name)
  }

  /**
   * The code-directory rule as the source writes it: `!isKebabCase || hasChinese`.
   * Its contract says that the CJK disjunct adds nothing, and names the usual
   * ways to break the rule: the empty name, an upper-case letter, `_` or `.`.
   */
  predicate IsCodeDirViolation(name: string): (r: bool)
    ensures r <==> !(|name| > 0 && forall i :: 0 <= i < |name| ==> IsKebabChar(name[i]))
    ensures (|name| == 0 || exists i :: 0 <= i < |name| && (('A' <= name[i] <= 'Z') || name[i] == '_' || name[i] == '.')) ==> r
  {
    !IsKebabCase(name) || HasChinese(name)
  }

  /** A document file is reported when it ends with `.md` and breaks the document rule. */
  predicate IsReportedDoc(name: string) {
    EndsWithMd(name) && IsDocViolation(name)
  }

  /**
   * `name.replace(/-/g, '')`: the name with every hyphen deleted. The result
   * holds no hyphen, keeps every other character as often as the name has it,
   * and is never longer than the name.
   */
  function StripHyphens(name: string): (r: string)
    ensures '-' !in r
    ensures |r| <= |name|
    ensures forall c :: c != '-' ==> multiset(r)[c] == multiset(name)[c]
  {
    if |name| == 0 then ""
    else
      assert name == [name[0]] + name[1..];
      (if name[0] == '-' then "" else [name[0]]) + StripHyphens(name[1..])
  }

  /** Stripping distributes over concatenation, so it works character by character. */
  lemma {:induction false} StripHyphensConcat(a: string, b: string)
    ensures StripHyphens(a + b) == StripHyphens(a) + StripHyphens(b)
  {
    if |a| == 0 {
      assert a + b == b;
    } else {
      var head := if a[0] == '-' then "" else [a[0]];
      assert (a + b)[0] == a[0] && (a + b)[1..] == a[1..] + b;
      assert StripHyphens(a + b) == head + StripHyphens(a[1..] + b);
      StripHyphensConcat(a[1..], b);
      assert StripHyphens(a) == head + StripHyphens(a[1..]);
    }
  }

  /** Stripping leaves a name without hyphens unchanged, and changes every name that has one. */
  lemma {:induction false} StripHyphensIdentity(name: string)
    ensures StripHyphens(name) == name <==> '-' !in name
  {
    if |name| > 0 {
      assert name == [name[0]] + name[1..];
      StripHyphensIdentity(name[1..]);
    }
  }

  /** Applying the suggestion twice gives the same name as applying it once. */
  lemma StripHyphensIdempotent(name: string)
    ensures StripHyphens(StripHyphens(name)) == StripHyphens(name)
  {
    StripHyphensIdentity(StripHyphens(name));
  }

  /** Deleting hyphens never brings in a character outside `[a-zA-Z0-9\-_.]`. */
  lemma {:induction false} StripHyphensKeepsDocChars(name: string)
    requires forall i :: 0 <= i < |name| ==> IsDocNameChar(name[i])
    ensures forall i :: 0 <= i < |StripHyphens(name)| ==> IsDocNameChar(StripHyphens(name)[i])
  {
    if |name| > 0 {
      StripHyphensKeepsDocChars(name[1..]);
    }
  }

  /**
   * The suggestion for a reported document keeps its `.md` suffix and is
   * itself reported again: the heuristic cannot bring a name into line.
   */
  lemma SuggestionStillReported(name: string)
    requires IsReportedDoc(name)
    ensures IsReportedDoc(StripHyphens(name))
  {
    var stem := name[..|name| - 3];
    assert name == stem + ".md";
    StripHyphensConcat(stem, ".md");
    StripHyphensIdentity(".md");
    StripHyphensKeepsDocChars(name);
  }
}
