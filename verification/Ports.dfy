/** Port entries of codewire.yaml: canonical form, printing and parsing. */
module Ports {
  import opened Results
  import opened Text

  /** Go's int on a 64-bit platform. */
  type GoInt = n: int | -0x8000_0000_0000_0000 <= n < 0x8000_0000_0000_0000

  /** `tag` is the label of the source. */
  datatype PortConfig = PortConfig(port: GoInt, hostPort: GoInt, guestPort: GoInt, tag: string)
  {
    function EffectiveGuestPort(): GoInt {
      if guestPort > 0 then guestPort else port
    }

    function EffectiveHostPort(): GoInt {
      if hostPort > 0 then hostPort else EffectiveGuestPort()
    }

    function Canonical(): PortConfig {
      var host, guest := EffectiveHostPort(), EffectiveGuestPort();
      if host <= 0 || guest <= 0 then PortConfig(0, 0, 0, tag)
      else if host == guest then PortConfig(guest, 0, 0, tag)
      else PortConfig(0, host, guest, tag)
    }
  }

  datatype PortError = EmptyValue | BothForms | NotPositive | BadShape | BadNumber | NotScalarOrMapping

  function Canonicalize(p: PortConfig): Result<PortConfig, PortError> {
    var tag := TrimSpace(p.tag);
    if p.port > 0 && (p.hostPort > 0 || p.guestPort > 0) then Err(BothForms)
    else if p.port > 0 then Ok(PortConfig(p.port, 0, 0, tag))
    else if p.hostPort <= 0 || p.guestPort <= 0 then Err(NotPositive)
    else Ok(PortConfig(0, p.hostPort, p.guestPort, tag).Canonical())
  }

  // ---- Decimal numbers ----

  predicate IsDigit(c: char) {
    '0' <= c <= '9'
  }

  predicate AllDigits(s: string) {
    forall i :: 0 <= i < |s| ==> IsDigit(s[i])
  }

  function DigitChar(d: nat): char
    requires d < 10
  {
    '0' + d as char
  }

  function DigitsValue(s: string): nat
    requires AllDigits(s)
  {
    if s == "" then 0 else DigitsValue(s[..|s|-1]) * 10 + (s[|s|-1] as int - '0' as int)
  }

  /** %d for a nonnegative number. */
  function Decimal(n: nat): string {
    if n < 10 then [DigitChar(n)] else Decimal(n / 10) + [DigitChar(n % 10)]
  }

  /** %d. */
  function FormatInt(n: int): string {
    if n < 0 then "-" + Decimal(-n) else Decimal(n)
  }

  /** strconv.Atoi: an optional sign, then digits, within the range of int. */
  function Atoi(s: string): Option<GoInt> {
    var signed := s != "" && (s[0] == '-' || s[0] == '+');
    var digits := if signed then s[1..] else s;
    if digits == "" || !AllDigits(digits) then None
    else
      var size: int := DigitsValue(digits);
      var value := if signed && s[0] == '-' then -size else size;
      if -0x8000_0000_0000_0000 <= value < 0x8000_0000_0000_0000 then Some(value) else None
  }

  lemma {:induction false} DecimalIsDigits(n: nat)
    ensures Decimal(n) != "" && AllDigits(Decimal(n)) && DigitsValue(Decimal(n)) == n
  {
    if n >= 10 {
      DecimalIsDigits(n / 10);
      var d := Decimal(n);
      assert d[..|d|-1] == Decimal(n / 10);
    } else {
      assert Decimal(n)[..0] == "";
    }
  }

  lemma DigitsAreTrimmed(s: string)
    requires AllDigits(s)
    ensures Trimmed(s) && ':' !in s
  {
  }

  /** Parsing undoes printing. */
  lemma AtoiOfDecimal(n: GoInt)
    requires n >= 0
    ensures Atoi(Decimal(n)) == Some(n) && TrimSpace(Decimal(n)) == Decimal(n) && ':' !in Decimal(n)
  {
    DecimalIsDigits(n);
    DigitsAreTrimmed(Decimal(n));
    TrimSpaceFixes(Decimal(n));
  }

  /** Parsing a sign and digits; a number beyond the range of int is no number. */
  lemma AtoiOfSigned(sign: char, digits: string)
    requires (sign == '-' || sign == '+') && digits != "" && AllDigits(digits)
    ensures Atoi([sign] + digits) ==
            var size: int := DigitsValue(digits);
            var value := if sign == '-' then -size else size;
            if -0x8000_0000_0000_0000 <= value < 0x8000_0000_0000_0000 then Some(value) else None
  {
    var text := [sign] + digits;
    assert text[0] == sign && text[1..] == digits;
  }

  lemma AtoiOfDigits(digits: string)
    requires digits != "" && AllDigits(digits)
    ensures Atoi(digits) == if DigitsValue(digits) < 0x8000_0000_0000_0000 then Some(DigitsValue(digits)) else None
  {
    assert IsDigit(digits[0]);
  }

  /** So every int reads back as it is printed. */
  lemma AtoiOfFormatInt(n: GoInt)
    ensures Atoi(FormatInt(n)) == Some(n)
  {
    if n < 0 {
      var size: int := n;
      DecimalIsDigits(-size);
      AtoiOfSigned('-', Decimal(-size));
    } else {
      DecimalIsDigits(n);
      AtoiOfDigits(Decimal(n));
    }
  }

  // ---- Printing and parsing entries ----

  /** What MarshalYAML hands to the encoder. */
  datatype Marshalled =
    | IntScalar(n: GoInt)
    | TextScalar(text: string)
    | PortMap(port: GoInt, tag: string)
    | HostGuestMap(hostPort: GoInt, guestPort: GoInt, tag: string)

  /** What UnmarshalYAML is given: absent integer fields decode as zero. */
  datatype Node =
    | ScalarNode(value: string)
    | MappingNode(port: GoInt, hostPort: GoInt, guestPort: GoInt, published: GoInt, target: GoInt, tag: string)
    | OtherNode

  function Marshal(p: PortConfig): Result<Marshalled, PortError> {
    match Canonicalize(p)
    case Err(e) => Err(e)
    case Ok(c) =>
      if TrimSpace(c.tag) == "" then
        var host, guest := c.EffectiveHostPort(), c.EffectiveGuestPort();
        if host == guest then Ok(IntScalar(guest))
        else Ok(TextScalar(FormatInt(host) + ":" + FormatInt(guest)))
      else if c.port > 0 then Ok(PortMap(c.port, c.tag))
      else Ok(HostGuestMap(c.hostPort, c.guestPort, c.tag))
  }

  /** YAML encoding followed by decoding: scalars keep their text, mappings their fields. */
  function AsNode(m: Marshalled): Node {
    match m
    case IntScalar(n) => ScalarNode(FormatInt(n))
    case TextScalar(text) => ScalarNode(text)
    case PortMap(port, tag) => MappingNode(port, 0, 0, 0, 0, tag)
    case HostGuestMap(host, guest, tag) => MappingNode(0, host, guest, 0, 0, tag)
  }

  function ParseScalar(text: string): Result<PortConfig, PortError> {
    var raw := TrimSpace(text);
    if raw == "" then Err(EmptyValue)
    else match Atoi(raw)
      case Some(port) => Canonicalize(PortConfig(port, 0, 0, ""))
      case None =>
        var parts := Split(raw, ':');
        if |parts| != 2 then Err(BadShape)
        else
          var host, guest := Atoi(TrimSpace(parts[0])), Atoi(TrimSpace(parts[1]));
          if host.None? || guest.None? then Err(BadNumber)
          else Canonicalize(PortConfig(0, host.value, guest.value, ""))
  }

  function Unmarshal(node: Node): Result<PortConfig, PortError> {
    match node
    case ScalarNode(value) => ParseScalar(value)
    case MappingNode(port, host, guest, published, target, tag) =>
      Canonicalize(
        PortConfig(port, if published > 0 then published else host, if target > 0 then target else guest, tag))
    case OtherNode => Err(NotScalarOrMapping)
  }

  // ---- Canonical forms ----

  /** Canonicalising succeeds exactly on one of the two forms, and is idempotent and keeps both
      effective ports, which come out positive. */
  lemma CanonicalizeKeepsPorts(p: PortConfig)
    ensures Canonicalize(p).Ok? <==>
            if p.port > 0 then p.hostPort <= 0 && p.guestPort <= 0 else p.hostPort > 0 && p.guestPort > 0
    ensures Canonicalize(p).Ok? ==>
              var c := Canonicalize(p).value;
              && Canonicalize(c) == Ok(c) && c.Canonical() == c && c.tag == TrimSpace(p.tag)
              && c.EffectiveHostPort() == p.EffectiveHostPort() > 0
              && c.EffectiveGuestPort() == p.EffectiveGuestPort() > 0
    ensures Canonicalize(p).Err? ==>
              Canonicalize(p).error == if p.port > 0
                && (p.hostPort > 0 || p.guestPort > 0) then BothForms else NotPositive
  {
    TrimSpaceIdempotent(p.tag);
  }

  /** A canonical entry is written once: equal host and guest ports mean the single-port form. */
  lemma CanonicalIsUnique(p: PortConfig, q: PortConfig)
    requires Canonicalize(p).Ok? && Canonicalize(q).Ok? && TrimSpace(p.tag) == TrimSpace(q.tag)
    requires p.EffectiveHostPort() == q.EffectiveHostPort() && p.EffectiveGuestPort() == q.EffectiveGuestPort()
    ensures Canonicalize(p) == Canonicalize(q)
  {
  }

  lemma PairSplits(h: string, g: string)
    requires ':' !in h && ':' !in g
    ensures Split(h + ":" + g, ':') == [h, g]
  {
    SplitWithoutSep(h, ':');
    SplitWithoutSep(g, ':');
    SplitConcat(h, ":" + g, ':');
    assert (":" + g)[1..] == g;
    assert h + (":" + g) == h + ":" + g && h + "" == h;
  }

  lemma ParsePair(host: GoInt, guest: GoInt)
    requires host > 0 && guest > 0
    ensures ParseScalar(FormatInt(host) + ":" + FormatInt(guest)) == Canonicalize(PortConfig(0, host, guest, ""))
  {
    var h, g := Decimal(host), Decimal(guest);
    AtoiOfDecimal(host);
    AtoiOfDecimal(guest);
    DecimalIsDigits(host);
    DecimalIsDigits(guest);
    PairIsNoNumber(h, g);
    PairSplits(h, g);
  }

  lemma PairIsNoNumber(h: string, g: string)
    requires h != "" && g != "" && AllDigits(h) && AllDigits(g)
    ensures Atoi(h + ":" + g) == None && TrimSpace(h + ":" + g) == h + ":" + g
  {
    var text := h + ":" + g;
    assert text[|h|] == ':' && text[0] == h[0] && text[|text|-1] == g[|g|-1];
    TrimSpaceFixes(text);
  }

  /** How an entry is written: without a label as a scalar, the number alone where both ports agree
      and "host:guest" otherwise; with a label as a mapping that carries it. */
  lemma WrittenForm(p: PortConfig)
    requires Canonicalize(p).Ok?
    ensures var host, guest, m := p.EffectiveHostPort(), p.EffectiveGuestPort(), Marshal(p);
            if TrimSpace(p.tag) == "" then
              m == Ok(if host == guest then IntScalar(guest) else TextScalar(FormatInt(host) + ":" + FormatInt(guest)))
            else if host == guest then m == Ok(PortMap(guest, TrimSpace(p.tag)))
            else m == Ok(HostGuestMap(host, guest, TrimSpace(p.tag)))
  {
    CanonicalizeKeepsPorts(p);
    TrimSpaceIdempotent(p.tag);
  }

  /** `published` and `target` are other names of the host and the guest port, and go before them. */
  lemma OtherNames(port: GoInt, host: GoInt, guest: GoInt, published: GoInt, target: GoInt, tag: string)
    ensures published > 0 ==>
              Unmarshal(MappingNode(port, host, guest, published, target, tag))
              == Unmarshal(MappingNode(port, published, guest, 0, target, tag))
    ensures target > 0 ==>
              Unmarshal(MappingNode(port, host, guest, published, target, tag))
              == Unmarshal(MappingNode(port, host, target, published, 0, tag))
    ensures Unmarshal(MappingNode(port, host, guest, 0, 0, tag)) == Canonicalize(PortConfig(port, host, guest, tag))
    ensures Unmarshal(OtherNode) == Err(NotScalarOrMapping)
  {
  }

  /** White space around a scalar and around its two numbers does not matter. */
  lemma PaddingDoesNotMatter(front: string, text: string, back: string)
    requires AllSpace(front) && Trimmed(text) && AllSpace(back)
    ensures ParseScalar(front + text + back) == ParseScalar(text)
  {
    TrimSpaceDropsBoth(front, text, back);
    TrimSpaceFixes(text);
  }

  lemma PaddedPair(host: string, a: string, b: string, guest: string)
    requires Trimmed(host) && Trimmed(guest) && host != "" && guest != "" && AllSpace(a) && AllSpace(b)
    requires ':' !in host && ':' !in guest
    ensures ParseScalar(host + a + ":" + (b + guest))
         == if Atoi(host).None? || Atoi(guest).None? then Err(BadNumber)
            else Canonicalize(PortConfig(0, Atoi(host).value, Atoi(guest).value, ""))
  {
    var left, right := host + a, b + guest;
    var text := left + ":" + right;
    SpaceIsNoColon(a);
    SpaceIsNoColon(b);
    PairSplits(left, right);
    assert text[0] == host[0] && text[|text|-1] == guest[|guest|-1];
    TrimSpaceFixes(text);
    TrimSpaceDropsBoth("", host, a);
    assert "" + host + a == left;
    TrimSpaceDropsBoth(b, guest, "");
    assert b + guest + "" == right;
    ColonIsNoNumber(left, right);
  }

  lemma SpaceIsNoColon(s: string)
    requires AllSpace(s)
    ensures ':' !in s
  {
  }

  lemma ColonIsNoNumber(left: string, right: string)
    requires left != ""
    ensures Atoi(left + ":" + right) == None
  {
    var text := left + ":" + right;
    assert text[|left|] == ':';
    assert text[1..][|left| - 1] == ':';
  }

  /** What is no port: nothing, and neither a number nor two texts around one colon. */
  lemma Unparsable(text: string)
    ensures TrimSpace(text) == "" ==> ParseScalar(text) == Err(EmptyValue)
    ensures TrimSpace(text) != "" && Atoi(TrimSpace(text)).None? && |Split(TrimSpace(text), ':')| != 2
            ==> ParseScalar(text) == Err(BadShape)
  {
  }

  /** Exactly the entries with a canonical form can be written, and reading what was written gives that form. */
  lemma WrittenPortReadsBack(p: PortConfig)
    ensures Marshal(p).Ok? <==> Canonicalize(p).Ok?
    ensures Marshal(p).Ok? ==> Unmarshal(AsNode(Marshal(p).value)) == Canonicalize(p)
  {
    CanonicalizeKeepsPorts(p);
    if Canonicalize(p).Ok? {
      ReadsBack(p);
    }
  }

  lemma ReadsBack(p: PortConfig)
    requires Canonicalize(p).Ok?
    ensures Marshal(p).Ok? && Unmarshal(AsNode(Marshal(p).value)) == Canonicalize(p)
  {
    CanonicalizeKeepsPorts(p);
    var c := Canonicalize(p).value;
    var host, guest := c.EffectiveHostPort(), c.EffectiveGuestPort();
    TrimSpaceIdempotent(p.tag);
    if TrimSpace(c.tag) == "" {
      if host == guest {
        AtoiOfDecimal(guest);
        DecimalIsDigits(guest);
      } else {
        ParsePair(host, guest);
      }
    }
  }
}
