/** What addresses look like, letter by letter: the text that is printed, and what each option of a text that
    is parsed sets. */
module EndpointTexts {
  import opened Basics
  import opened Endpoints

  function KindText(t: EType): string {
    match t case TCP => "tcp" case UDP => "udp" case SSL => "ssl"
  }

  lemma FieldLiteral(letter: char, v: string)
    ensures Field(letter, v) == [' ', '-', letter, ' '] + v
  {
  }

  /** One numeric option, written out and read. */
  lemma OneOption(shown: bool, letter: char, n: int, rest: Opts, x: Fields)
    ensures Text(Opt(shown, letter, n, rest)) == (if shown then [' ', '-', letter, ' '] + Dec(n) else "") + Text(rest)
    ensures Fit(Opt(shown, letter, n, rest)) <==> Fits(letter, n) && Fit(rest)
    ensures shown && n >= 0 ==> Reads(Opt(shown, letter, n, rest), x) == Reads(rest, Set(letter, n, x))
  {
    FieldLiteral(letter, Dec(n));
  }

  lemma PrintedWeights(e: Fields)
    ensures Text(Weights(e)) ==
            (if e.weight != -1 then " -w " + Dec(e.weight) else "")
            + ((if e.weighttype != 0 then " -v " + Dec(e.weighttype) else "")
            + ((if e.authType != 0 then " -e " + Dec(e.authType) else "") + ""))
  {
    var auth := Opt(e.authType != 0, 'e', e.authType, End);
    var kind := Opt(e.weighttype != 0, 'v', e.weighttype, auth);
    OneOption(e.authType != 0, 'e', e.authType, End, e);
    OneOption(e.weighttype != 0, 'v', e.weighttype, auth, e);
    OneOption(e.weight != -1, 'w', e.weight, kind, e);
  }

  /** The text of an address: host, port and timeout always, the others unless they are at their default. */
  lemma PrintedText(e: Fields)
    ensures ToString(e) ==
            KindText(e.etype) + (" -h " + e.host + (" -p " + Dec(e.port) + (" -t " + Dec(e.timeout)
            + ((if e.grid != 0 then " -g " + Dec(e.grid) else "")
            + ((if e.qos != 0 then " -q " + Dec(e.qos) else "")
            + ((if e.weight != -1 then " -w " + Dec(e.weight) else "")
            + ((if e.weighttype != 0 then " -v " + Dec(e.weighttype) else "")
            + ((if e.authType != 0 then " -e " + Dec(e.authType) else "") + ""))))))))
  {
    PrintedWeights(e);
    FieldLiteral('h', e.host);
    var qos := Opt(e.qos != 0, 'q', e.qos, Weights(e));
    var grid := Opt(e.grid != 0, 'g', e.grid, qos);
    var timeout := Opt(true, 't', e.timeout, grid);
    OneOption(e.qos != 0, 'q', e.qos, Weights(e), e);
    OneOption(e.grid != 0, 'g', e.grid, qos, e);
    OneOption(true, 't', e.timeout, grid, e);
    OneOption(true, 'p', e.port, timeout, e);
  }

  /** A text of a host and numeric options sets what the options say, in their order, over the defaults. */
  lemma OptionsOfText(t: EType, host: string, os: Opts, into: Fields, ipv6: AddressTest)
    requires IsWord(host) && host[0] != '-' && Fit(os)
    ensures Parse(KindText(t) + (Field('h', host) + Text(os)), into, ipv6) ==
            match Reads(os, Cleared(into).(etype := t, host := host))
            case None => None
            case Some(f) => Settle(f, ipv6)
  {
    HostThenOptions(t, host, os);
    OptionsRead(os, Cleared(into).(etype := t, host := host));
    HostParsed(KindText(t) + (Field('h', host) + Text(os)), KindText(t), t, host, WordsOf(os), into, ipv6);
  }

  lemma HostParsed(s: string, kind: string, t: EType, host: string, ws: seq<string>, into: Fields, ipv6: AddressTest)
    requires Words(s) == [kind] + (["-h", host] + ws) && Kind(kind) == Some(t)
    requires IsWord(host) && host[0] != '-' && NoneEmpty(ws)
    ensures Parse(s, into, ipv6) ==
            match Options(ws, Cleared(into).(etype := t, host := host))
            case None => None
            case Some(f) => Settle(f, ipv6)
  {
    TwoTaken('h', host, ws, Cleared(into).(etype := t));
    assert "-" + ['h'] == "-h";
    ParseWords(s, kind, t, ["-h", host] + ws, into, ipv6);
  }

  lemma HostThenOptions(t: EType, host: string, os: Opts)
    requires IsWord(host) && Fit(os)
    ensures Words(KindText(t) + (Field('h', host) + Text(os))) == [KindText(t)] + (["-h", host] + WordsOf(os))
    ensures Kind(KindText(t)) == Some(t)
  {
    TextWords(os);
    KindNamed(t);
    PrintedWords(KindName(t), host, Text(os));
  }

  function Shown(letter: char, n: nat, rest: Opts): Opts {
    Opt(true, letter, n, rest)
  }

  /** Each letter sets its own field. */
  lemma EachOptionSets(t: EType, host: string, p: nat, tm: nat, g: nat, q: nat, w: nat, a: nat, into: Fields, ipv6: AddressTest)
    requires IsWord(host) && host[0] != '-' && host != "*" && p <= 65535 && a <= 1
    requires tm <= 0x7fff_ffff && g <= 0x7fff_ffff && q <= 0x7fff_ffff && w <= 0x7fff_ffff
    ensures Parse(KindText(t) + (" -h " + host + (" -p " + Dec(p) + (" -t " + Dec(tm) + (" -g " + Dec(g)
                  + (" -q " + Dec(q) + (" -w " + Dec(w) + (" -e " + Dec(a) + ""))))))), into, ipv6)
         == Some(Fields(host, p, tm, t, g, q, w, 0, a, ipv6(host)))
  {
    var x := Cleared(into).(etype := t, host := host);
    var y := x.(port := p, timeout := tm, grid := g);
    var os6, os5, os4 := LastThree(q, w, a, y);
    var os3 := Shown('g', g, os4);
    var os2 := Shown('t', tm, os3);
    var os1 := Shown('p', p, os2);
    OneOption(true, 'g', g, os4, x.(port := p, timeout := tm));
    OneOption(true, 't', tm, os3, x.(port := p));
    OneOption(true, 'p', p, os2, x);
    OptionsOfText(t, host, os1, into, ipv6);
    FieldLiteral('h', host);
  }

  lemma LastThree(q: nat, w: nat, a: nat, y: Fields) returns (os6: Opts, os5: Opts, os4: Opts)
    requires q <= 0x7fff_ffff && w <= 0x7fff_ffff && a <= 1
    ensures Fit(os4) && Text(os4) == " -q " + Dec(q) + (" -w " + Dec(w) + (" -e " + Dec(a) + ""))
    ensures Reads(os4, y) == Some(y.(qos := q, weight := w, authType := a))
  {
    os6 := Shown('e', a, End);
    os5 := Shown('w', w, os6);
    os4 := Shown('q', q, os5);
    OneOption(true, 'e', a, End, y.(qos := q, weight := w));
    OneOption(true, 'w', w, os6, y.(qos := q));
    OneOption(true, 'q', q, os5, y);
  }

  /** An address without options has them at their defaults; what the parser is called on keeps its port and
      timeout. */
  lemma DefaultsStay(t: EType, host: string, into: Fields, ipv6: AddressTest)
    requires IsWord(host) && host[0] != '-' && host != "*"
    ensures Parse(KindText(t) + (" -h " + host + ""), into, ipv6)
         == Some(Fields(host, into.port, into.timeout, t, 0, 0, -1, 0, 0, ipv6(host)))
  {
    OptionsOfText(t, host, End, into, ipv6);
    FieldLiteral('h', host);
  }

  /** Without a host the one there was stays, and there has to be one. */
  lemma HostStays(t: EType, into: Fields, ipv6: AddressTest)
    requires into.host != "*"
    ensures Parse(KindText(t), into, ipv6)
         == if into.host == "" then None
            else Some(Fields(into.host, into.port, into.timeout, t, 0, 0, -1, 0, 0, ipv6(into.host)))
  {
    KindNamed(t);
    WordsWord(KindText(t), "");
    assert KindText(t) + "" == KindText(t) && Words("") == [];
  }

  /** A new address has no port, and three seconds. */
  lemma NewAddress(t: EType, host: string, ipv6: AddressTest)
    requires IsWord(host) && host[0] != '-' && host != "*"
    ensures Parse(KindText(t) + (" -h " + host + ""), Default(ipv6), ipv6)
         == Some(Fields(host, 0, 3000, t, 0, 0, -1, 0, 0, ipv6(host)))
  {
    DefaultsStay(t, host, Default(ipv6), ipv6);
  }

  /** A minus sign before a weight type, which can only stand behind an odd blank, counts down from 2^32. */
  lemma NegativeWraps(n: nat)
    requires 0 < n <= 0xffff_ffff
    ensures ScanUnsigned("\U{0B}" + (['-'] + Digits(n))) == Some(0x1_0000_0000 - n)
  {
    StripTab(Digits(n));
    DigitsValue(n);
    Wraps("\U{0B}" + (['-'] + Digits(n)), n);
  }

  lemma Wraps(w: string, n: nat)
    requires Scan(w) == Some((true, n)) && 0 < n <= 0xffff_ffff
    ensures ScanUnsigned(w) == Some(0x1_0000_0000 - n)
  {
  }

  /** With a weight type, a weight is at most 100, and 100 if there is none. */
  lemma WeightIsClamped(t: EType, host: string, v: nat, w: nat, into: Fields, ipv6: AddressTest)
    requires IsWord(host) && host[0] != '-' && host != "*" && 0 < v <= 0xffff_ffff && w <= 0x7fff_ffff
    ensures Parse(KindText(t) + (" -h " + host + (" -v " + Dec(v) + "")), into, ipv6)
         == Some(Fields(host, into.port, into.timeout, t, 0, 0, 100, v, 0, ipv6(host)))
    ensures Parse(KindText(t) + (" -h " + host + (" -v " + Dec(v) + (" -w " + Dec(w) + ""))), into, ipv6)
         == Some(Fields(host, into.port, into.timeout, t, 0, 0, if w > 100 then 100 else w, v, 0, ipv6(host)))
  {
    var x := Cleared(into).(etype := t, host := host);
    var weighted := Shown('w', w, End);
    OneOption(true, 'w', w, End, x.(weighttype := v));
    OneOption(true, 'v', v, weighted, x);
    OneOption(true, 'v', v, End, x);
    OptionsOfText(t, host, Shown('v', v, End), into, ipv6);
    OptionsOfText(t, host, Shown('v', v, weighted), into, ipv6);
    FieldLiteral('h', host);
  }

  /** A star stands for every address of the machine. */
  lemma StarIsAnyHost(t: EType, into: Fields, ipv6: AddressTest)
    ensures Parse(KindText(t) + (" -h " + "*" + ""), into, ipv6)
         == Some(Fields("0.0.0.0", into.port, into.timeout, t, 0, 0, -1, 0, 0, ipv6("0.0.0.0")))
  {
    OptionsOfText(t, "*", End, into, ipv6);
    FieldLiteral('h', "*");
  }

  /** What each number can be at most. */
  predicate TooBig(letter: char, n: nat) {
    match letter
    case 'p' => n > 65535
    case 'e' => n > 1
    case 'v' => n > 0xffff_ffff
    case _ => letter in ['t', 'g', 'q', 'w'] && n > 0x7fff_ffff
  }

  lemma TooBigFails(letter: char, n: nat, x: Fields)
    requires TooBig(letter, n)
    ensures Apply(x, letter, Dec(n)) == None
  {
    ScanDec(n);
  }

  /** A number that is too big makes the text no address. */
  lemma TooBigIsRefused(t: EType, host: string, letter: char, n: nat, into: Fields, ipv6: AddressTest)
    requires IsWord(host) && host[0] != '-' && TooBig(letter, n)
    ensures Parse(KindText(t) + (Field('h', host) + (Field(letter, Dec(n)) + "")), into, ipv6) == None
  {
    var x := Cleared(into).(etype := t, host := host);
    TooBigFails(letter, n, x);
    DecIsWord(n);
    WordsField(letter, Dec(n), "");
    KindNamed(t);
    PrintedWords(KindName(t), host, Field(letter, Dec(n)) + "");
    TwoTaken(letter, Dec(n), [], x);
    assert Words("") == [];
    HostParsed(KindText(t) + (Field('h', host) + (Field(letter, Dec(n)) + "")), KindText(t), t, host,
               ["-" + [letter], Dec(n)] + [], into, ipv6);
  }

  /** Nor is a text that is empty, begins with another word, or has a word where an option should be. */
  lemma OtherTextIsRefused(s: string, into: Fields, ipv6: AddressTest)
    requires Words(s) == [] || Words(s)[0] !in ["tcp", "udp", "ssl"]
             || (|Words(s)| > 1 && (|Words(s)[1]| != 2 || Words(s)[1][0] != '-'))
    ensures Parse(s, into, ipv6) == None
  {
  }

  /** Words are what stands between blanks, tabs and line ends. */
  lemma WordsApart(w: string, c: char, rest: string)
    requires w != [] && forall i :: 0 <= i < |w| ==> w[i] !in [' ', '\t', '\n', '\r']
    requires c in [' ', '\t', '\n', '\r']
    ensures Words(w + ([c] + rest)) == [w] + Words(rest) && Words([c] + rest) == Words(rest) && Words(w) == [w]
  {
    WordsBlank(c, rest);
    WordsWord(w, [c] + rest);
    WordsWord(w, "");
    assert w + "" == w && Words("") == [];
  }
}
