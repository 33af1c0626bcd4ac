/**
 Names of Incident objects (incidentCRDName and slugify in internal/aggregator/incident_store.go).
 lower stands for the rune mapping of strings.ToLower.
 */
module IncidentNames {
  import Words

  /** [a-z0-9] */
  predicate IsAlnum(c: char) {
    'a' <= c <= 'z' || '0' <= c <= '9'
  }

  predicate IsLabelChar(c: char) {
    IsAlnum(c) || c == '-'
  }

  /** Lower-casing leaves the characters of a slug alone. */
  ghost predicate KeepsLower(lower: char -> char) {
    forall c :: IsLabelChar(c) ==> lower(c) == c
  }

  function MapChars(s: string, f: char -> char): (r: string)
    ensures |r| == |s| && forall i :: 0 <= i < |s| ==> r[i] == f(s[i])
  {
    seq(|s|, i requires 0 <= i < |s| => f(s[i]))
  }

  predicate EndsWithDash(s: string) {
    s != "" && s[|s| - 1] == '-'
  }

  /** Every run of other characters becomes one dash. */
  function Collapse(s: string): string {
    if s == "" then ""
    else
      var n := |s| - 1;
      var r := Collapse(s[..n]);
      if IsAlnum(s[n]) then r + [s[n]] else if EndsWithDash(r) then r else r + "-"
  }

  /** strings.TrimRight(s, "-") */
  function TrimRight(s: string): string {
    if EndsWithDash(s) then TrimRight(s[..|s| - 1]) else s
  }

  function TrimLeft(s: string): string {
    if s != "" && s[0] == '-' then TrimLeft(s[1..]) else s
  }

  function Slugify(s: string, lower: char -> char): string {
    var trimmed := TrimRight(TrimLeft(Collapse(MapChars(s, lower))));
    var cut := if |trimmed| > 40 then TrimRight(trimmed[..40]) else trimmed;
    if cut == "" then "incident" else cut
  }

  function Fp8(fingerprint: string): string {
    if |fingerprint| > 8 then fingerprint[..8] else fingerprint
  }

  function CrdName(pattern: string, fingerprint: string, lower: char -> char): string {
    var slug := Slugify(pattern, lower);
    var fp8 := Fp8(fingerprint);
    var name := slug + "-" + fp8;
    if |name| > 63 then
      TrimRight(slug[..63 - 1 - |fp8|]) + "-" + fp8
    else
      name
  }

  // ------------------------------------------------------------------ slugs

  predicate NoDoubleDash(s: string) {
    forall i :: 0 < i < |s| ==> !(s[i - 1] == '-' && s[i] == '-')
  }

  predicate LabelChars(s: string) {
    forall i :: 0 <= i < |s| ==> IsLabelChar(s[i])
  }

  /** What slugify produces: letters and digits, separated by single dashes, at most 40 characters. */
  predicate IsSlug(s: string) {
    1 <= |s| <= 40 && LabelChars(s) && NoDoubleDash(s) && s[0] != '-' && s[|s| - 1] != '-'
  }

  lemma {:induction false} CollapseShape(s: string)
    ensures LabelChars(Collapse(s)) && NoDoubleDash(Collapse(s))
  {
    if s != "" { CollapseShape(s[..|s| - 1]); }
  }

  lemma {:induction false} CollapseFixed(s: string)
    requires LabelChars(s) && NoDoubleDash(s)
    ensures Collapse(s) == s
  {
    if s != "" {
      var n := |s| - 1;
      CollapseFixed(s[..n]);
      assert s == s[..n] + [s[n]];
      if s[n] == '-' && n > 0 { assert s[n - 1] != '-'; }
    }
  }

  lemma {:induction false} TrimRightShape(s: string)
    requires LabelChars(s) && NoDoubleDash(s)
    ensures TrimRight(s) <= s && !EndsWithDash(TrimRight(s))
    ensures LabelChars(TrimRight(s)) && NoDoubleDash(TrimRight(s))
  {
    if EndsWithDash(s) { TrimRightShape(s[..|s| - 1]); }
  }

  lemma {:induction false} TrimLeftShape(s: string)
    requires LabelChars(s) && NoDoubleDash(s)
    ensures LabelChars(TrimLeft(s)) && NoDoubleDash(TrimLeft(s))
    ensures TrimLeft(s) != "" ==> TrimLeft(s)[0] != '-'
  {
    if s != "" && s[0] == '-' { TrimLeftShape(s[1..]); }
  }

  lemma SlugifyShape(s: string, lower: char -> char)
    ensures IsSlug(Slugify(s, lower))
  {
    var c := Collapse(MapChars(s, lower));
    CollapseShape(MapChars(s, lower));
    TrimLeftShape(c);
    var l := TrimLeft(c);
    TrimRightShape(l);
    var t := TrimRight(l);
    assert t != "" ==> t[0] == l[0];
    if |t| > 40 { CutShape(t); }
    hide Collapse;
    hide TrimLeft;
    hide TrimRight;
  }

  lemma CutShape(t: string)
    requires |t| > 40 && LabelChars(t) && NoDoubleDash(t) && t[0] != '-'
    ensures IsSlug(TrimRight(t[..40]))
  {
    TrimRightShape(t[..40]);
    assert t[..40][0] == t[0];
    var r := TrimRight(t[..40]);
    if r == "" { TrimmedAway(t[..40]); }
  }

  /** Only a string of dashes is trimmed away completely. */
  lemma {:induction false} TrimmedAway(s: string)
    requires TrimRight(s) == ""
    ensures forall i :: 0 <= i < |s| ==> s[i] == '-'
  {
    if EndsWithDash(s) { TrimmedAway(s[..|s| - 1]); }
  }

  /** slugify is idempotent; indeed the slugs are exactly the strings it leaves alone. */
  lemma SlugifyFixesSlugs(s: string, lower: char -> char)
    requires KeepsLower(lower)
    ensures Slugify(s, lower) == s <==> IsSlug(s)
    ensures Slugify(Slugify(s, lower), lower) == Slugify(s, lower)
  {
    SlugifyShape(s, lower);
    SlugIsFixed(Slugify(s, lower), lower);
    if IsSlug(s) { SlugIsFixed(s, lower); }
  }

  lemma SlugIsFixed(s: string, lower: char -> char)
    requires KeepsLower(lower) && IsSlug(s)
    ensures Slugify(s, lower) == s
  {
    assert MapChars(s, lower) == s;
    CollapseFixed(s);
  }

  // ------------------------------------------------------------------ what a slug spells

  /** The letters and digits of s in order, with a dash exactly where something else stands between two of them. */
  function Dashed(s: string): string {
    if s == "" then ""
    else
      var n := |s| - 1;
      var d := Dashed(s[..n]);
      if !('a' <= s[n] <= 'z' || '0' <= s[n] <= '9') then d
      else if d != "" && !('a' <= s[n - 1] <= 'z' || '0' <= s[n - 1] <= '9') then d + "-" + [s[n]]
      else d + [s[n]]
  }

  lemma {:induction false} DashedShape(s: string)
    ensures LabelChars(Dashed(s)) && NoDoubleDash(Dashed(s))
    ensures Dashed(s) != "" ==> Dashed(s)[0] != '-' && Dashed(s)[|Dashed(s)| - 1] != '-'
  {
    if s != "" { DashedShape(s[..|s| - 1]); }
  }

  /** Collapsing leaves a dash more at the end, or at the beginning, if the string ends or begins with one. */
  lemma {:induction false} CollapseIsDashed(s: string)
    ensures var front := if s != "" && !IsAlnum(s[0]) then "-" else "";
            Collapse(s) == if Dashed(s) == "" then front
                           else front + Dashed(s) + if !IsAlnum(s[|s| - 1]) then "-" else ""
  {
    if s != "" {
      var n := |s| - 1;
      CollapseIsDashed(s[..n]);
      DashedShape(s[..n]);
      if n > 0 { assert s[..n][0] == s[0] && s[..n][n - 1] == s[n - 1]; }
      hide LabelChars;
      hide NoDoubleDash;
    }
  }

  lemma TrimmedIsDashed(s: string)
    ensures TrimRight(TrimLeft(Collapse(s))) == Dashed(s)
  {
    CollapseIsDashed(s);
    DashedShape(s);
    var d := Dashed(s);
    hide Collapse;
    hide Dashed;
    hide LabelChars;
    hide NoDoubleDash;
    if d == "" {
      assert "-"[1..] == "";
    } else {
      DashesFall(d);
    }
  }

  lemma DashesFall(d: string)
    requires d != "" && d[0] != '-' && d[|d| - 1] != '-'
    ensures TrimLeft(d) == d && TrimLeft("-" + d) == d
    ensures TrimLeft(d + "-") == d + "-" && TrimLeft("-" + d + "-") == d + "-"
    ensures TrimRight(d) == d && TrimRight(d + "-") == d
  {
    assert ("-" + d)[1..] == d && ("-" + d + "-")[1..] == d + "-";
    assert (d + "-")[..|d|] == d;
  }

  /**
   A slug spells the lower-cased pattern: its letters and digits in order, with a dash exactly where something else
   stands between two of them; of a longer spelling the first forty characters, without a dash at the end.
   */
  lemma SlugSpellsPattern(s: string, lower: char -> char)
    ensures var (d, slug) := (Dashed(MapChars(s, lower)), Slugify(s, lower));
            slug == if d == "" then "incident"
                    else if |d| <= 40 then d
                    else if d[39] == '-' then d[..39]
                    else d[..40]
    ensures forall i :: 0 <= i < |s| ==> MapChars(s, lower)[i] == lower(s[i])
  {
    var d := Dashed(MapChars(s, lower));
    TrimmedIsDashed(MapChars(s, lower));
    DashedShape(MapChars(s, lower));
    hide Dashed;
    hide Collapse;
    hide TrimLeft;
    if |d| > 40 {
      assert d[..40][..39] == d[..39];
      if d[39] == '-' {
        assert d[38] != '-';
        assert TrimRight(d[..39]) == d[..39];
      }
    }
  }

  // ------------------------------------------------------------------ names

  /** A DNS label: section 2.1 of RFC 1123, at most 63 octets (section 2.3.4 of RFC 1035). */
  predicate IsDnsLabel(s: string) {
    1 <= |s| <= 63 && LabelChars(s) && s[0] != '-' && s[|s| - 1] != '-'
  }

  /** Names have at most 49 characters, so the branch for longer ones is never taken. */
  lemma NameIsShort(pattern: string, fingerprint: string, lower: char -> char)
    ensures CrdName(pattern, fingerprint, lower) == Slugify(pattern, lower) + "-" + Fp8(fingerprint)
    ensures Fp8(fingerprint) == fingerprint[..if |fingerprint| < 8 then |fingerprint| else 8]
    ensures |CrdName(pattern, fingerprint, lower)| <= 49
  {
    SlugifyShape(pattern, lower);
    hide Slugify;
  }

  /**
   For every pattern, the name is a DNS label exactly when the first eight characters of the
   fingerprint are label characters that do not end in a dash; lower-case hexadecimal digits always are.
   */
  lemma NameIsDnsLabel(pattern: string, fingerprint: string, lower: char -> char)
    ensures IsDnsLabel(CrdName(pattern, fingerprint, lower))
       <==> fingerprint != "" && LabelChars(Fp8(fingerprint)) && !EndsWithDash(Fp8(fingerprint))
    ensures fingerprint != "" && Words.IsHex(Fp8(fingerprint)) ==> IsDnsLabel(CrdName(pattern, fingerprint, lower))
  {
    NameIsShort(pattern, fingerprint, lower);
    SlugifyShape(pattern, lower);
    hide Slugify;
    hide CrdName;
    hide IsDnsLabel;
    JoinedLabel(Slugify(pattern, lower), Fp8(fingerprint));
    if Words.IsHex(Fp8(fingerprint)) { HexIsLabel(Fp8(fingerprint)); }
  }

  lemma JoinedLabel(slug: string, fp8: string)
    requires IsSlug(slug) && |slug + fp8| <= 48
    ensures IsDnsLabel(slug + "-" + fp8) <==> fp8 != "" && LabelChars(fp8) && !EndsWithDash(fp8)
  {
    var name := slug + "-" + fp8;
    assert name[|slug|] == '-' && forall i :: 0 <= i < |fp8| ==> name[|slug| + 1 + i] == fp8[i];
    assert forall i :: 0 <= i < |slug| ==> name[i] == slug[i];
  }

  lemma HexIsLabel(s: string)
    requires Words.IsHex(s)
    ensures LabelChars(s) && !EndsWithDash(s)
  {
    assert forall i :: 0 <= i < |s| ==> s[i] in s;
  }

  /** Part of the longer fingerprint prefix can pass for the end of the other slug. */
  predicate Spills(slug: string, fp8: string, slug': string, fp8': string) {
    |fp8| < |fp8'|
    && var m := fp8'[..|fp8'| - |fp8| - 1]; fp8' == m + "-" + fp8 && slug == slug' + "-" + m
  }

  lemma JoinsAgree(a: string, x: string, b: string, y: string)
    requires |x| <= |y|
    ensures a + "-" + x == b + "-" + y <==> (a == b && x == y) || Spills(a, x, b, y)
  {
    var s, t := a + "-" + x, b + "-" + y;
    if s == t {
      var k := |y| - |x|;
      assert s[|s| - |x|..] == x && t[|t| - |y|..] == y && t[|t| - |x|..] == y[k..];
      assert s[..|a|] == a && t[..|b|] == b && s[|a|] == '-' && t[|b|] == '-';
      if k > 0 {
        assert |a| == |b| + k && y[k - 1] == t[|a|] == '-';
        assert t[|b| + 1..|a|] == y[..k - 1];
        assert a == t[..|a|] == b + "-" + y[..k - 1];
        assert y == y[..k - 1] + [y[k - 1]] + y[k..];
      }
    }
  }

  /**
   Two names are equal iff the slugs and the fingerprint prefixes are, or the extra characters of a longer prefix
   continue the other slug. The latter takes prefixes of different lengths, the longer one with a dash.
   */
  lemma NameCollisions(p: string, f: string, p': string, f': string, lower: char -> char)
    ensures var (s, s') := (Slugify(p, lower), Slugify(p', lower));
            CrdName(p, f, lower) == CrdName(p', f', lower)
            <==> (s == s' && Fp8(f) == Fp8(f')) || Spills(s, Fp8(f), s', Fp8(f')) || Spills(s', Fp8(f'), s, Fp8(f))
    ensures |Fp8(f)| == |Fp8(f')| || ('-' !in f && '-' !in f') ==>
              (CrdName(p, f, lower) == CrdName(p', f', lower)
               <==> Slugify(p, lower) == Slugify(p', lower) && Fp8(f) == Fp8(f'))
  {
    NameIsShort(p, f, lower);
    NameIsShort(p', f', lower);
    PrefixHasNoDash(f);
    PrefixHasNoDash(f');
    hide Slugify;
    hide CrdName;
    hide Fp8;
    var s, s' := Slugify(p, lower), Slugify(p', lower);
    if |Fp8(f)| <= |Fp8(f')| { JoinsAgree(s, Fp8(f), s', Fp8(f')); } else { JoinsAgree(s', Fp8(f'), s, Fp8(f)); }
    if Spills(s, Fp8(f), s', Fp8(f')) { SpillHasDash(s, Fp8(f), s', Fp8(f')); }
    if Spills(s', Fp8(f'), s, Fp8(f)) { SpillHasDash(s', Fp8(f'), s, Fp8(f)); }
    hide Spills;
  }

  lemma SpillHasDash(slug: string, fp8: string, slug': string, fp8': string)
    requires Spills(slug, fp8, slug', fp8')
    ensures '-' in fp8' && |fp8| < |fp8'|
  {
    assert fp8'[|fp8'| - |fp8| - 1] == '-';
  }

  lemma PrefixHasNoDash(f: string)
    ensures '-' !in f ==> '-' !in Fp8(f)
  {
  }
}
