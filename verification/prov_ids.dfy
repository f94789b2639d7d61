/**
 Provenance identifiers of the shape `<base>/prov/<xx>/<n>` (support.py).

 The identifier pattern `^(.+)/prov/([a-z][a-z])/([1-9][0-9]*)$` is modelled by a
 declarative grammar (`WellFormed` and `Render`) and by a parser (`Parse`) that is
 proved to accept exactly the strings the pattern matches under Python's `re.match`:
 `.` does not match a newline, and `$` also matches just before one final newline.
 */
module ProvIds {
  import opened Optional
  import opened Decimal

  /** Number of capture groups in the identifier pattern. */
  const GroupCount: nat := 3

  const ProvInfix: string := "/prov/"

  /** The two-letter type segment of snapshot identifiers. */
  const SnapshotKind: string := "se"

  /** The three capture groups of a match. */
  datatype ProvId = ProvId(base: string, kind: string, count: string)

  /** Group 1, `(.+)`: at least one character, none of them a newline. */
  predicate IsBase(b: string) {
    |b| > 0 && forall i | 0 <= i < |b| :: b[i] != '\n'
  }

  predicate IsLower(c: char) {
    'a' <= c <= 'z'
  }

  /** Group 2, `([a-z][a-z])`. */
  predicate IsKind(k: string) {
    |k| == 2 && IsLower(k[0]) && IsLower(k[1])
  }

  predicate WellFormed(p: ProvId) {
    IsBase(p.base) && IsKind(p.kind) && IsCountText(p.count)
  }

  /** The text matched by the whole pattern. */
  function Render(p: ProvId): string {
    p.base + ProvInfix + p.kind + "/" + p.count
  }

  /** Length of the longest all-digit suffix of `t`. */
  function DigitRun(t: string): (d: nat)
    ensures d <= |t|
    ensures AllDigits(t[|t| - d..])
    ensures d < |t| ==> !IsDigit(t[|t| - d - 1])
  {
    if |t| == 0 || !IsDigit(t[|t| - 1]) then 0
    else
      var d := DigitRun(t[..|t| - 1]);
      assert t[|t| - (d + 1)..] == t[..|t| - 1][|t| - 1 - d..] + [t[|t| - 1]];
      d + 1
  }

  /** Where `$` may match: the end of the string, or just before one final newline. */
  function StripFinalNewline(s: string): (t: string)
    ensures s == t || s == t + "\n"
  {
    if |s| > 0 && s[|s| - 1] == '\n' then s[..|s| - 1] else s
  }

  /** Splits `<base>/prov/<xx>/` into its base and type segments. */
  function ParseHead(h: string): (r: Option<(string, string)>)
    ensures r.Some? ==> IsBase(r.value.0) && IsKind(r.value.1)
    ensures r.Some? ==> h == r.value.0 + ProvInfix + r.value.1 + "/"
  {
    if |h| < 10 then None
    else
      var n := |h|;
      var base, infix, kind := h[..n - 9], h[n - 9..n - 3], h[n - 3..n - 1];
      if IsBase(base) && infix == ProvInfix && IsKind(kind) && h[n - 1] == '/' then
        assert h == base + infix + kind + [h[n - 1]];
        Some((base, kind))
      else None
  }

  lemma ParseHeadComplete(base: string, kind: string)
    requires IsBase(base) && IsKind(kind)
    ensures ParseHead(base + ProvInfix + kind + "/") == Some((base, kind))
  {
    var h := base + ProvInfix + kind + "/";
    var n := |h|;
    assert h[..n - 9] == base;
    assert h[n - 9..n - 3] == ProvInfix;
    assert h[n - 3..n - 1] == kind;
  }

  /**
   The pattern against the text `$` leaves: the count group is the maximal digit
   suffix, because it must end where the match ends and is preceded by a `/`.
   */
  function ParseText(t: string): (r: Option<ProvId>)
    ensures r.Some? ==> WellFormed(r.value) && t == Render(r.value)
  {
    var d := DigitRun(t);
    if d == 0 || t[|t| - d] == '0' then None
    else
      var n := |t| - d;
      match ParseHead(t[..n])
      case None => None
      case Some((base, kind)) =>
        assert t == t[..n] + t[n..];
        Some(ProvId(base, kind, t[n..]))
  }

  /** `re.match(prov_regex, s)`. */
  function Parse(s: string): (r: Option<ProvId>)
    ensures r.Some? ==> WellFormed(r.value)
    ensures r.Some? ==> s == Render(r.value) || s == Render(r.value) + "\n"
  {
    ParseText(StripFinalNewline(s))
  }

  lemma {:induction false} DigitRunOfDigitTail(x: string, c: string)
    requires |x| > 0 && !IsDigit(x[|x| - 1])
    requires AllDigits(c)
    ensures DigitRun(x + c) == |c|
  {
    if |c| > 0 {
      var c' := c[..|c| - 1];
      assert (x + c)[..|x + c| - 1] == x + c';
      DigitRunOfDigitTail(x, c');
    } else {
      assert x + c == x;
    }
  }

  /** Parsing depends on `s` only through the text left after dropping one final newline. */
  lemma ParseRenderedText(s: string, p: ProvId)
    requires WellFormed(p)
    requires StripFinalNewline(s) == Render(p)
    ensures Parse(s) == Some(p)
  {
    var t := Render(p);
    var head := p.base + ProvInfix + p.kind + "/";
    assert t == head + p.count;
    DigitRunOfDigitTail(head, p.count);
    assert t[..|head|] == head;
    assert t[|head|..] == p.count;
    ParseHeadComplete(p.base, p.kind);
  }

  /** The parser accepts every rendered identifier, with or without one final newline. */
  lemma ParseComplete(p: ProvId)
    requires WellFormed(p)
    ensures Parse(Render(p)) == Some(p)
    ensures Parse(Render(p) + "\n") == Some(p)
  {
    var t := Render(p);
    assert t[|t| - 1] == p.count[|p.count| - 1];
    ParseRenderedText(t, p);
    assert (t + "\n")[..|t|] == t;
    ParseRenderedText(t + "\n", p);
  }

  /** A string matches the identifier pattern exactly when it renders a well-formed identifier. */
  lemma ParseIff(s: string, p: ProvId)
    ensures Parse(s) == Some(p) <==> WellFormed(p) && (s == Render(p) || s == Render(p) + "\n")
  {
    if WellFormed(p) && (s == Render(p) || s == Render(p) + "\n") {
      ParseComplete(p);
    }
  }

  /** `_get_match` returns "" exactly when the pattern does not match. */
  function GetMatch(group: nat, s: string): (r: string)
    requires Parse(s).Some? ==> group <= GroupCount
    ensures r == "" <==> Parse(s).None?
    ensures Parse(s).Some? && group == GroupCount ==> IsCountText(r)
  {
    match Parse(s)
    case None => ""
    case Some(p) =>
      if group == 0 then Render(p)
      else if group == 1 then p.base
      else if group == 2 then p.kind
      else p.count
  }

  /**
   On a string of the shape the pattern describes, group 0 is the whole match without
   the final newline, and groups 1, 2 and 3 are the base, the type and the count.
   */
  lemma GetMatchGroups(s: string, p: ProvId)
    requires WellFormed(p) && (s == Render(p) || s == Render(p) + "\n")
    ensures GetMatch(0, s) == Render(p)
    ensures GetMatch(1, s) == p.base && GetMatch(2, s) == p.kind && GetMatch(3, s) == p.count
  {
    ParseIff(s, p);
    assert Parse(s) == Some(p);
  }

  predicate InfixAt(s: string, i: int) {
    0 <= i && i + |ProvInfix| <= |s| && s[i..i + |ProvInfix|] == ProvInfix
  }

  /** `"/prov/" in s`. */
  predicate HasProvInfix(s: string) {
    exists i | 0 <= i <= |s| :: InfixAt(s, i)
  }

  lemma RenderHasProvInfix(p: ProvId)
    ensures HasProvInfix(Render(p))
    ensures HasProvInfix(Render(p) + "\n")
  {
    var i := |p.base|;
    assert InfixAt(Render(p), i);
    assert InfixAt(Render(p) + "\n", i);
  }

  /** Every string the pattern matches contains "/prov/". */
  lemma ParseHasProvInfix(s: string)
    ensures Parse(s).Some? ==> HasProvInfix(s)
  {
    if Parse(s).Some? {
      RenderHasProvInfix(Parse(s).value);
    }
  }

  /**
   `get_count` as written: it asks for group 6 of a three-group pattern, so its call to
   `_get_match` is only defined on strings the pattern rejects.
   */
  function GetCount(s: string): (r: Option<string>)
    requires HasProvInfix(s) ==> Parse(s).None?
    ensures r.None? <==> !HasProvInfix(s)
    ensures r.Some? ==> r.value == ""
  {
    if HasProvInfix(s) then Some(GetMatch(6, s)) else None
  }

  /** Every identifier the pattern matches lies outside the domain of `GetCount`. */
  lemma GetCountRejectsEveryIdentifier(s: string)
    requires Parse(s).Some?
    ensures !(HasProvInfix(s) ==> Parse(s).None?)
  {
    ParseHasProvInfix(s);
  }

  /** `get_count` as evidently intended: the count group, the third one. */
  function GetCountCorrected(s: string): (r: Option<string>)
    ensures Parse(s).Some? ==> r == Some(Parse(s).value.count)
    ensures r.None? <==> !HasProvInfix(s)
    ensures r.Some? && r.value != "" ==> Parse(s).Some? && IsCountText(r.value)
  {
    ParseHasProvInfix(s);
    if HasProvInfix(s) then Some(GetMatch(GroupCount, s)) else None
  }

  /** `get_prov_count`: the count group of the pattern, "" when it does not match. */
  function GetProvCount(s: string): (r: string)
    ensures Parse(s).Some? ==> r == Parse(s).value.count && IsCountText(r)
    ensures Parse(s).None? ==> r == ""
  {
    GetMatch(GroupCount, s)
  }

  /** The corrected `get_count` agrees with `get_prov_count` on every string containing "/prov/". */
  lemma GetCountCorrectedIsProvCount(s: string)
    requires HasProvInfix(s)
    ensures GetCountCorrected(s) == Some(GetProvCount(s))
  {
  }

  /** What separates a subject from the count in its snapshot identifiers. */
  const SnapshotInfix: string := ProvInfix + SnapshotKind + "/"

  /** The snapshot identifier minted for count `n` of `subject`. */
  function SnapshotIri(subject: string, n: nat): string {
    subject + SnapshotInfix + ToText(n)
  }

  /** Minted identifiers match the pattern and give back their subject and count. */
  lemma SnapshotIriRoundTrip(subject: string, n: nat)
    requires IsBase(subject) && n >= 1
    ensures Parse(SnapshotIri(subject, n)) == Some(ProvId(subject, SnapshotKind, ToText(n)))
    ensures GetProvCount(SnapshotIri(subject, n)) == ToText(n)
    ensures ValueOf(GetProvCount(SnapshotIri(subject, n))) == n
  {
    var p := ProvId(subject, SnapshotKind, ToText(n));
    ToTextIsCountText(n);
    assert SnapshotIri(subject, n) == Render(p);
    ParseComplete(p);
    ValueOfToText(n);
  }

  /**
   The subject a snapshot identifier was minted for: what precedes `/prov/se/` and the
   maximal digit suffix. Defined for every subject, including ones the pattern rejects.
   */
  function Owner(key: string): Option<string> {
    var d := DigitRun(key);
    var m := |SnapshotInfix|;
    if d == 0 || |key| - d < m || key[|key| - d - m..|key| - d] != SnapshotInfix then None
    else Some(key[..|key| - d - m])
  }

  /** Every minted identifier belongs to the subject it was minted for, whatever that subject. */
  lemma OwnerOfSnapshotIri(subject: string, n: nat)
    ensures Owner(SnapshotIri(subject, n)) == Some(subject)
  {
    var x := subject + SnapshotInfix;
    var key := SnapshotIri(subject, n);
    assert key == x + ToText(n);
    DigitRunOfDigitTail(x, ToText(n));
    assert |key| - DigitRun(key) == |x| == |subject| + |SnapshotInfix|;
    assert key[|subject|..|x|] == SnapshotInfix;
    assert key[..|subject|] == subject;
  }

  /** Distinct (subject, count) pairs never share a snapshot identifier. */
  lemma SnapshotIriInjective(s1: string, n1: nat, s2: string, n2: nat)
    requires SnapshotIri(s1, n1) == SnapshotIri(s2, n2)
    ensures s1 == s2 && n1 == n2
  {
    OwnerOfSnapshotIri(s1, n1);
    OwnerOfSnapshotIri(s2, n2);
    if n1 != n2 {
      SnapshotIriDistinct(s1, n1, n2);
    }
  }

  /** One subject's snapshots with different counts have different identifiers. */
  lemma SnapshotIriDistinct(subject: string, m: nat, n: nat)
    requires m != n
    ensures SnapshotIri(subject, m) != SnapshotIri(subject, n)
  {
    var prefix := subject + SnapshotInfix;
    if SnapshotIri(subject, m) == SnapshotIri(subject, n) {
      assert ToText(m) == SnapshotIri(subject, m)[|prefix|..];
      assert ToText(n) == SnapshotIri(subject, n)[|prefix|..];
      ToTextInjective(m, n);
    }
  }
}
