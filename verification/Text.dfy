/** String pieces: decimal numbers, "ip:port" keys (internal/store/store.go:224) and subdomain
    normalisation (internal/util/util.go:21-40). */
module Text {
  import opened Common

  // ---- Decimal numbers and keys -----------------------------------------------------------------

  function Digits(n: nat): (s: string)
    ensures |s| > 0 && forall i | 0 <= i < |s| :: '0' <= s[i] <= '9'
  {
    var d := ['0' + (n % 10) as char];
    if n < 10 then d else Digits(n / 10) + d
  }

  function Itoa(n: int): (s: string)
    ensures |s| > 0 && ':' !in s
  {
    if n < 0 then "-" + Digits(-n) else Digits(n)
  }

  lemma {:induction false} DigitsInjective(m: nat, n: nat)
    ensures Digits(m) == Digits(n) ==> m == n
  {
    if Digits(m) == Digits(n) {
      var a, b := Digits(m), Digits(n);
      assert a[|a| - 1] == '0' + (m % 10) as char && b[|b| - 1] == '0' + (n % 10) as char;
      assert m % 10 == n % 10;
      if m >= 10 && n >= 10 {
        assert a[..|a| - 1] == Digits(m / 10) && b[..|b| - 1] == Digits(n / 10);
        DigitsInjective(m / 10, n / 10);
      } else {
        assert m < 10 ==> |a| == 1;
        assert n < 10 ==> |b| == 1;
        assert m >= 10 ==> |a| > 1;
        assert n >= 10 ==> |b| > 1;
      }
    }
  }

  lemma ItoaInjective(m: int, n: int)
    ensures Itoa(m) == Itoa(n) ==> m == n
  {
    assert (m < 0 <==> Itoa(m)[0] == '-') && (n < 0 <==> Itoa(n)[0] == '-');
    if m < 0 && n < 0 {
      assert Itoa(m)[1..] == Digits(-m) && Itoa(n)[1..] == Digits(-n);
      DigitsInjective(-m, -n);
    } else if m >= 0 && n >= 0 {
      DigitsInjective(m, n);
    }
  }

  function Key(ip: string, port: int): string {
    ip + ":" + Itoa(port)
  }

  /** Two endpoints have the same key only if they are the same endpoint, whatever the address
      contains (IPv6 addresses contain colons). */
  lemma KeyInjective(ip1: string, port1: int, ip2: string, port2: int)
    ensures Key(ip1, port1) == Key(ip2, port2) <==> ip1 == ip2 && port1 == port2
  {
    if Key(ip1, port1) == Key(ip2, port2) {
      var k := Key(ip1, port1);
      LastColon(ip1, port1);
      LastColon(ip2, port2);
      assert k[|ip1|] == ':' && k[|ip2|] == ':';
      assert k[..|ip1|] == ip1 && k[..|ip2|] == ip2;
      assert k[|ip1| + 1..] == Itoa(port1) && k[|ip2| + 1..] == Itoa(port2);
      ItoaInjective(port1, port2);
    }
  }

  lemma LastColon(ip: string, port: int)
    ensures forall i | |ip| < i < |Key(ip, port)| :: Key(ip, port)[i] != ':'
  {
  }

  // ---- strconv.Atoi and the pieces of a target ----------------------------------------------------

  const MAX_INT: int := 0x7FFF_FFFF_FFFF_FFFF

  predicate AllDigits(s: string) {
    forall i | 0 <= i < |s| :: '0' <= s[i] <= '9'
  }

  function Value(s: string): nat
    requires AllDigits(s)
  {
    if s == "" then 0 else 10 * Value(s[..|s| - 1]) + (s[|s| - 1] - '0') as nat
  }

  /** strconv.Atoi with its error dropped: zero for what is no number, the nearest bound for what does
      not fit in 64 bits. */
  function Atoi(s: string): int {
    var signed := s != "" && s[0] in {'-', '+'};
    var body := if signed then s[1..] else s;
    if body == "" || !AllDigits(body) then 0
    else
      var v: int := Value(body);
      if s[0] == '-' then if v > MAX_INT then -MAX_INT - 1 else -v else if v > MAX_INT then MAX_INT else v
  }

  lemma {:induction false} DigitsValue(n: nat)
    ensures Value(Digits(n)) == n
  {
    var d := ['0' + (n % 10) as char];
    if n >= 10 {
      DigitsValue(n / 10);
      assert (Digits(n / 10) + d)[..|Digits(n / 10)|] == Digits(n / 10);
    } else {
      assert d[..0] == "";
    }
  }

  lemma ItoaEnd(n: int)
    ensures '0' <= Itoa(n)[|Itoa(n)| - 1] <= '9'
  {
  }

  lemma AtoiItoa(n: int)
    requires -MAX_INT - 1 <= n <= MAX_INT
    ensures Atoi(Itoa(n)) == n
  {
    hide Digits, Value, Atoi;
    var d := Digits(if n < 0 then -n else n);
    DigitsValue(if n < 0 then -n else n);
    AtoiOf(d);
  }

  /** Digits alone, and after a minus sign. */
  lemma AtoiOf(d: string)
    requires d != "" && AllDigits(d)
    ensures Value(d) <= MAX_INT ==> Atoi(d) == Value(d)
    ensures Value(d) <= MAX_INT + 1 ==> Atoi("-" + d) + Value(d) == 0
  {
    hide Value;
    var s := "-" + d;
    assert s[0] == '-' && s[1..] == d;
    assert d[0] !in {'-', '+'};
  }

  function TrimPrefix(s: string, prefix: string): string {
    if prefix <= s then s[|prefix|..] else s
  }

  /** Where the last colon is. */
  function LastColonAt(s: string): (r: Option<nat>)
    ensures r.Some? ==> r.value < |s| && s[r.value] == ':' && forall i | r.value < i < |s| :: s[i] != ':'
    ensures r.None? ==> forall i | 0 <= i < |s| :: s[i] != ':'
  {
    if s == "" then None
    else if s[|s| - 1] == ':' then Some(|s| - 1)
    else LastColonAt(s[..|s| - 1])
  }

  const SEP := "://"

  predicate SepAt(s: string, i: nat) {
    i + 3 <= |s| && s[i..i + 3] == SEP
  }

  /** Where the first "://" at or after `i` is: the end of the scheme. */
  function SchemeEnd(s: string, i: nat := 0): (r: Option<nat>)
    requires i <= |s|
    ensures r.Some? ==> i <= r.value && SepAt(s, r.value) && forall j | i <= j < r.value :: !SepAt(s, j)
    ensures r.None? ==> forall j | i <= j :: !SepAt(s, j)
    decreases |s| - i
  {
    if SepAt(s, i) then Some(i) else if i < |s| then SchemeEnd(s, i + 1) else None
  }

  // ---- Subdomain normalisation --------------------------------------------------------------------

  /** Go's Unicode tables: how a rune is lower-cased, and which runes are trimmed as space. */
  datatype Unicode = Unicode(lower: char -> char, space: char -> bool)

  predicate LabelChar(c: char) {
    'a' <= c <= 'z' || '0' <= c <= '9' || c == '-'
  }

  /** All that is used of the tables: the characters of a label are lower-case and not space. */
  ghost predicate Sane(u: Unicode) {
    forall c | LabelChar(c) :: u.lower(c) == c && !u.space(c)
  }

  function TrimLeft(s: string, cut: char -> bool): string {
    if s != "" && cut(s[0]) then TrimLeft(s[1..], cut) else s
  }

  function TrimRight(s: string, cut: char -> bool): string {
    if s != "" && cut(s[|s| - 1]) then TrimRight(s[..|s| - 1], cut) else s
  }

  function Trim(s: string, cut: char -> bool): string {
    TrimRight(TrimLeft(s, cut), cut)
  }

  function Lowered(u: Unicode, s: string): string {
    seq(|s|, i requires 0 <= i < |s| => u.lower(s[i]))
  }

  function KeptRune(r: char): string {
    if ('a' <= r <= 'z') || ('0' <= r <= '9') || r == '-' then [r]
    else if r == '_' || r == '.' || r == ' ' then "-"
    else ""
  }

  function Kept(s: string): string {
    if s == "" then "" else Kept(s[..|s| - 1]) + KeptRune(s[|s| - 1])
  }

  function Hyphen(): char -> bool {
    c => c == '-'
  }

  function Normalised(u: Unicode, name: string): string {
    Trim(Kept(Lowered(u, Trim(name, u.space))), Hyphen())
  }

  function Sanitised(u: Unicode, name: string): string {
    var s := Normalised(u, name);
    if s == "" then "service" else s
  }

  method SanitiseSubdomain(u: Unicode, name: string) returns (s: string)
    ensures s == Sanitised(u, name)
  {
    var lowered := Lowered(u, Trim(name, u.space));
    var b := "";
    for i := 0 to |lowered|
      invariant b == Kept(lowered[..i])
    {
      var r := lowered[i];
      assert lowered[..i + 1][..i] == lowered[..i];
      if ('a' <= r <= 'z') || ('0' <= r <= '9') || r == '-' {
        b := b + [r];
      } else if r == '_' || r == '.' || r == ' ' {
        b := b + "-";
      }
    }
    assert lowered[..|lowered|] == lowered;
    s := Trim(b, Hyphen());
    if s == "" {
      s := "service";
    }
  }

  /** Letters, digits and hyphens, not empty, no hyphen at either end: the character rules of section
      2.1 of RFC 1123. */
  predicate Label(s: string) {
    s != "" && (forall i | 0 <= i < |s| :: LabelChar(s[i])) && s[0] != '-' && s[|s| - 1] != '-'
  }

  predicate LabelChars(s: string) {
    forall i | 0 <= i < |s| :: LabelChar(s[i])
  }

  lemma {:induction false} TrimLeftWorks(s: string, cut: char -> bool)
    ensures LabelChars(s) ==> LabelChars(TrimLeft(s, cut))
    ensures TrimLeft(s, cut) == "" || !cut(TrimLeft(s, cut)[0])
  {
    if s != "" && cut(s[0]) {
      assert forall i | 0 <= i < |s[1..]| :: s[1..][i] == s[i + 1];
      TrimLeftWorks(s[1..], cut);
    }
  }

  lemma {:induction false} TrimRightWorks(s: string, cut: char -> bool)
    ensures LabelChars(s) ==> LabelChars(TrimRight(s, cut))
    ensures TrimRight(s, cut) == "" || !cut(TrimRight(s, cut)[|TrimRight(s, cut)| - 1])
    ensures TrimRight(s, cut) <= s
  {
    if s != "" && cut(s[|s| - 1]) {
      TrimRightWorks(s[..|s| - 1], cut);
    }
  }

  lemma {:induction false} KeptIsLabelChars(s: string)
    ensures LabelChars(Kept(s))
    ensures LabelChars(s) ==> Kept(s) == s
  {
    if s != "" {
      var init := s[..|s| - 1];
      KeptIsLabelChars(init);
      assert s == init + [s[|s| - 1]];
      assert LabelChars(KeptRune(s[|s| - 1]));
    }
  }

  /** Every subdomain that comes out is a valid label. */
  lemma SanitisedIsLabel(u: Unicode, name: string)
    ensures Label(Sanitised(u, name))
  {
    hide Kept, TrimLeft, TrimRight, Lowered;
    assert Label("service");
    var k := Kept(Lowered(u, Trim(name, u.space)));
    KeptIsLabelChars(Lowered(u, Trim(name, u.space)));
    TrimLeftWorks(k, Hyphen());
    TrimRightWorks(TrimLeft(k, Hyphen()), Hyphen());
  }

  /** A valid label comes out unchanged; so normalising is idempotent, and the labels are exactly
      what it produces. */
  lemma SanitisedFixesLabels(u: Unicode, s: string)
    requires Sane(u) && Label(s)
    ensures Sanitised(u, s) == s
  {
    assert Trim(s, u.space) == s;
    assert Lowered(u, s) == s;
    KeptIsLabelChars(s);
  }

  /** Nothing but hyphens, what becomes one, and what is dropped. */
  predicate Blank(u: Unicode, name: string) {
    NoLetters(Lowered(u, Trim(name, u.space)))
  }

  predicate NoLetters(s: string) {
    forall i | 0 <= i < |s| :: KeptRune(s[i]) in {"", "-"}
  }

  /** Exactly the blank texts normalise to nothing. */
  lemma NormalisedNoneIff(u: Unicode, name: string)
    ensures Normalised(u, name) == "" <==> Blank(u, name)
  {
    var lowered := Lowered(u, Trim(name, u.space));
    KeptHyphens(lowered);
    TrimmedNoneIff(Kept(lowered), Hyphen());
  }

  predicate All(s: string, cut: char -> bool) {
    forall i | 0 <= i < |s| :: cut(s[i])
  }

  lemma {:induction false} KeptHyphens(s: string)
    ensures All(Kept(s), Hyphen()) <==> NoLetters(s)
  {
    if s != "" {
      var init, k := s[..|s| - 1], KeptRune(s[|s| - 1]);
      KeptHyphens(init);
      assert All(Kept(init) + k, Hyphen()) <==> All(Kept(init), Hyphen()) && All(k, Hyphen()) by {
        AllConcat(Kept(init), k, Hyphen());
      }
      assert All(k, Hyphen()) <==> k in {"", "-"} by {
        assert |k| <= 1 && (|k| == 1 && k[0] == '-' <==> k == "-");
      }
      assert NoLetters(s) <==> NoLetters(init) && k in {"", "-"} by {
        assert s == init + [s[|s| - 1]];
      }
    }
  }

  lemma AllConcat(s: string, t: string, cut: char -> bool)
    ensures All(s + t, cut) <==> All(s, cut) && All(t, cut)
  {
    if All(s + t, cut) {
      forall i | 0 <= i < |t| ensures cut(t[i]) {
        assert cut((s + t)[|s| + i]);
      }
      forall i | 0 <= i < |s| ensures cut(s[i]) {
        assert cut((s + t)[i]);
      }
    }
  }

  lemma TrimmedNoneIff(s: string, cut: char -> bool)
    ensures Trim(s, cut) == "" <==> All(s, cut)
  {
    TrimmedLeft(s, cut);
    TrimRightWorks(TrimLeft(s, cut), cut);
    TrimLeftWorks(s, cut);
    TrimmedRight(TrimLeft(s, cut), cut);
  }

  lemma {:induction false} TrimmedLeft(s: string, cut: char -> bool)
    ensures TrimLeft(s, cut) == "" <==> All(s, cut)
  {
    if s != "" && cut(s[0]) {
      TrimmedLeft(s[1..], cut);
      assert s == [s[0]] + s[1..];
      AllConcat([s[0]], s[1..], cut);
    }
  }

  /** What does not start with something to be cut is not cut away. */
  lemma {:induction false} TrimmedRight(s: string, cut: char -> bool)
    requires s == "" || !cut(s[0])
    ensures TrimRight(s, cut) == "" <==> s == ""
  {
    if s != "" && cut(s[|s| - 1]) {
      TrimmedRight(s[..|s| - 1], cut);
    }
  }

  lemma SanitisedIdempotent(u: Unicode, name: string)
    requires Sane(u)
    ensures Sanitised(u, Sanitised(u, name)) == Sanitised(u, name)
  {
    SanitisedIsLabel(u, name);
    SanitisedFixesLabels(u, Sanitised(u, name));
  }

  // ---- Normalisation, in words ----------------------------------------------------------------------------

  predicate Separator(c: char) {
    c == '_' || c == '.' || c == ' '
  }

  /** `k` is `s` with separators made hyphens and everything that is no letter, digit, hyphen or separator
      left out: `at` are the places kept. */
  predicate Picks(s: string, k: string, at: seq<nat>) {
    && |at| == |k|
    && (forall i | 0 <= i < |at| :: at[i] < |s| && (LabelChar(s[at[i]]) || Separator(s[at[i]])))
    && (forall i, j | 0 <= i < j < |at| :: at[i] < at[j])
    && (forall p | 0 <= p < |s| && (LabelChar(s[p]) || Separator(s[p])) :: p in at)
    && (forall i | 0 <= i < |at| :: k[i] == if Separator(s[at[i]]) then '-' else s[at[i]])
  }

  lemma PicksKept(s: string, c: char, k: string, at: seq<nat>)
    requires Picks(s, k, at) && (LabelChar(c) || Separator(c))
    ensures Picks(s + [c], k + [if Separator(c) then '-' else c], at + [|s|])
  {
    var t, more := s + [c], at + [|s|];
    assert t[|s|] == c && forall p | 0 <= p < |s| :: t[p] == s[p];
    assert more[|at|] == |s| && forall i | 0 <= i < |at| :: more[i] == at[i] < |s|;
    forall p | 0 <= p < |t| && (LabelChar(t[p]) || Separator(t[p])) ensures p in more {
      assert p < |s| ==> p in at;
    }
  }

  lemma PicksDropped(s: string, c: char, k: string, at: seq<nat>)
    requires Picks(s, k, at) && !LabelChar(c) && !Separator(c)
    ensures Picks(s + [c], k, at)
  {
    var t := s + [c];
    assert t[|s|] == c && forall p | 0 <= p < |s| :: t[p] == s[p];
  }

  lemma {:induction false} KeptPicks(s: string) returns (at: seq<nat>)
    ensures Picks(s, Kept(s), at)
  {
    at := [];
    if s != "" {
      hide Picks;
      var init, c := s[..|s| - 1], s[|s| - 1];
      assert s == init + [c];
      at := KeptPicks(init);
      if LabelChar(c) || Separator(c) {
        assert KeptRune(c) == [if Separator(c) then '-' else c];
        PicksKept(init, c, Kept(init), at);
        at := at + [|init|];
      } else {
        assert KeptRune(c) == "" && Kept(init) + "" == Kept(init);
        PicksDropped(init, c, Kept(init), at);
      }
    }
  }

  /** Cutting at both ends takes off just what is to be cut there. */
  lemma TrimIs(s: string, cut: char -> bool) returns (i: nat, j: nat)
    ensures i <= j <= |s| && Trim(s, cut) == s[i..j] && All(s[..i], cut) && All(s[j..], cut)
    ensures i < j ==> !cut(s[i]) && !cut(s[j - 1])
  {
    i := CutLeft(s, cut);
    var n := CutRight(s[i..], cut);
    j := i + n;
    assert s[i..][..n] == s[i..j] && s[i..][n..] == s[j..];
    assert i < j ==> s[i..][0] == s[i] && s[i..][n - 1] == s[j - 1];
  }

  lemma {:induction false} CutLeft(s: string, cut: char -> bool) returns (i: nat)
    ensures i <= |s| && TrimLeft(s, cut) == s[i..] && All(s[..i], cut) && (i < |s| ==> !cut(s[i]))
  {
    i := 0;
    if s != "" && cut(s[0]) {
      var n := CutLeft(s[1..], cut);
      i := n + 1;
      assert s[..i] == [s[0]] + s[1..][..n] && s[1..][n..] == s[i..];
    }
  }

  lemma {:induction false} CutRight(s: string, cut: char -> bool) returns (j: nat)
    ensures j <= |s| && TrimRight(s, cut) == s[..j] && All(s[j..], cut) && (j > 0 ==> !cut(s[j - 1]))
  {
    j := |s|;
    if s != "" && cut(s[j - 1]) {
      var init := s[..j - 1];
      j := CutRight(init, cut);
      assert s[j..] == init[j..] + [s[|s| - 1]] && init[..j] == s[..j];
    }
  }

  /** What is left of `s` without what is to be cut at its ends. */
  ghost predicate Stripped(s: string, t: string, cut: char -> bool) {
    exists i, j | 0 <= i <= j <= |s| ::
      t == s[i..j] && All(s[..i], cut) && All(s[j..], cut) && (i < j ==> !cut(s[i]) && !cut(s[j - 1]))
  }

  /** Normalising strips space, lower-cases, turns separators into hyphens, leaves out what is no letter, digit
      or hyphen, and strips hyphens; what is left empty becomes "service". */
  lemma SanitisedInWords(u: Unicode, name: string)
    returns (bare: string, lowered: string, kept: string, at: seq<nat>, rest: string)
    ensures Stripped(name, bare, u.space)
    ensures |lowered| == |bare| && forall i | 0 <= i < |bare| :: lowered[i] == u.lower(bare[i])
    ensures Picks(lowered, kept, at)
    ensures Stripped(kept, rest, (c: char) => c == '-')
    ensures Sanitised(u, name) == if rest == "" then "service" else rest
  {
    hide Kept, Trim, All;
    bare := Trim(name, u.space);
    lowered := Lowered(u, bare);
    kept := Kept(lowered);
    at := KeptPicks(lowered);
    TrimStrips(name, u.space);
    assert Hyphen() == (c: char) => c == '-';
    TrimStrips(kept, Hyphen());
    rest := Normalised(u, name);
  }

  lemma TrimStrips(s: string, cut: char -> bool)
    ensures Stripped(s, Trim(s, cut), cut)
  {
    var i, j := TrimIs(s, cut);
  }
}
