/** The text form of a network address: TC_Endpoint's parser and printer. */
module Endpoints {
  import opened Basics

  datatype EType = UDP | TCP | SSL

  datatype Fields = Fields(host: string, port: int, timeout: int, etype: EType, grid: int, qos: int,
                           weight: int, weighttype: int, authType: int, isIPv6: bool)

  /** Whether a host is an IPv6 address is decided elsewhere. */
  type AddressTest = string -> bool

  function Default(ipv6: AddressTest): Fields {
    Fields("0.0.0.0", 0, 3000, TCP, 0, 0, -1, 0, 0, ipv6("0.0.0.0"))
  }

  // ----- words -----

  predicate IsDelim(c: char) {
    c == ' ' || c == '\t' || c == '\n' || c == '\r'
  }

  /** How many delimiters a text starts with. */
  function Blank(s: string): (k: nat)
    ensures k <= |s|
    ensures k < |s| ==> !IsDelim(s[k])
  {
    if s == [] || !IsDelim(s[0]) then 0 else 1 + Blank(s[1..])
  }

  /** How many characters come before its first delimiter. */
  function Word(s: string): (k: nat)
    ensures k <= |s|
    ensures s != [] && !IsDelim(s[0]) ==> k > 0
    ensures forall i :: 0 <= i < k ==> !IsDelim(s[i])
  {
    if s == [] || IsDelim(s[0]) then 0 else 1 + Word(s[1..])
  }

  function Words(s: string): (ws: seq<string>)
    ensures forall i :: 0 <= i < |ws| ==> IsWord(ws[i])
    decreases |s|
  {
    var t := s[Blank(s)..];
    if t == [] then []
    else [t[..Word(t)]] + Words(t[Word(t)..])
  }

  predicate IsWord(w: string) {
    w != [] && forall i :: 0 <= i < |w| ==> !IsDelim(w[i])
  }

  // ----- numbers -----

  predicate IsDigit(c: char) {
    '0' <= c <= '9'
  }

  /** The decimal value of a text of digits. */
  function Value(s: string): nat
    requires forall i :: 0 <= i < |s| ==> IsDigit(s[i])
  {
    if s == [] then 0
    else
      assert IsDigit(s[|s| - 1]);
      Value(s[..|s| - 1]) * 10 + (s[|s| - 1] as int - '0' as int)
  }

  /** Of the blanks a stream skips before a number, those that can be in a word. */
  predicate IsOddSpace(c: char) {
    c == '\U{0B}' || c == '\U{0C}'
  }

  function Strip(s: string): (t: string)
    ensures t != [] ==> !IsOddSpace(t[0])
    ensures s != [] && !IsOddSpace(s[0]) ==> t == s
  {
    if s == [] || !IsOddSpace(s[0]) then s else Strip(s[1..])
  }

  /** A sign and digits, to the end of the text. */
  function Scan(s: string): Option<(bool, nat)> {
    var t := Strip(s);
    if t == [] then None
    else
      var body := if t[0] == '-' || t[0] == '+' then t[1..] else t;
      if body != [] && forall i :: 0 <= i < |body| ==> IsDigit(body[i]) then Some((t[0] == '-', Value(body))) else None
  }

  /** istringstream >> int, reaching the end. */
  function ScanInt(s: string): (r: Option<int>)
    ensures r.Some? ==> -0x8000_0000 <= r.value <= 0x7fff_ffff
  {
    match Scan(s)
    case None => None
    case Some((minus, n)) =>
      var v: int := (if minus then -1 else 1) * n;
      if -0x8000_0000 <= v <= 0x7fff_ffff then Some(v) else None
  }

  /** istringstream >> unsigned int, reaching the end: a minus sign wraps around. */
  function ScanUnsigned(s: string): (r: Option<int>)
    ensures r.Some? ==> 0 <= r.value <= 0xffff_ffff
  {
    match Scan(s)
    case None => None
    case Some((minus, n)) =>
      if n > 0xffff_ffff then None else Some(if minus then (UINT32 - n) % UINT32 else n)
  }

  function Digits(n: nat): (s: string)
    ensures s != [] && forall i :: 0 <= i < |s| ==> IsDigit(s[i])
  {
    (if n < 10 then [] else Digits(n / 10)) + [(n % 10 + '0' as int) as char]
  }

  function Dec(n: int): string {
    if n < 0 then "-" + Digits(-n) else Digits(n)
  }

  lemma {:induction false} DigitsValue(n: nat)
    ensures Value(Digits(n)) == n
  {
    var s := Digits(n);
    if n >= 10 {
      DigitsValue(n / 10);
      assert s[..|s| - 1] == Digits(n / 10);
    } else {
      assert s[..|s| - 1] == [];
    }
  }

  lemma ScanDec(n: nat)
    ensures Scan(Dec(n)) == Some((false, n))
    ensures IsWord(Dec(n)) && Dec(n)[0] != '-'
  {
    DigitsValue(n);
    var s := Dec(n);
    assert forall i :: 0 <= i < |s| ==> IsDigit(s[i]) && !IsDelim(s[i]);
    assert IsDigit(s[0]) && !IsOddSpace(s[0]);
  }

  // ----- options -----

  /** What one option does; None is an error, and an unknown letter does nothing. */
  function Apply(e: Fields, letter: char, argument: string): Option<Fields> {
    match letter
    case 'h' => if argument == [] then None else Some(e.(host := argument))
    case 'p' =>
      (match ScanInt(argument)
       case Some(n) => if 0 <= n <= 65535 then Some(e.(port := n)) else None
       case None => None)
    case 't' => (match ScanInt(argument) case Some(n) => Some(e.(timeout := n)) case None => None)
    case 'g' => (match ScanInt(argument) case Some(n) => Some(e.(grid := n)) case None => None)
    case 'q' => (match ScanInt(argument) case Some(n) => Some(e.(qos := n)) case None => None)
    case 'w' => (match ScanInt(argument) case Some(n) => Some(e.(weight := n)) case None => None)
    case 'v' => (match ScanUnsigned(argument) case Some(n) => Some(e.(weighttype := n)) case None => None)
    case 'e' =>
      (match ScanInt(argument)
       case Some(n) => if 0 <= n <= 1 then Some(e.(authType := n)) else None
       case None => None)
    case _ => Some(e)
  }

  predicate NoneEmpty(ws: seq<string>) {
    forall i :: 0 <= i < |ws| ==> ws[i] != []
  }

  /** The options in the words after the first: a letter with a dash, and the word after it unless
      that starts with a dash too. */
  function Options(ws: seq<string>, e: Fields): Option<Fields>
    requires NoneEmpty(ws)
    decreases |ws|
  {
    if ws == [] then Some(e)
    else if |ws[0]| != 2 || ws[0][0] != '-' then None
    else
      var takes := |ws| > 1 && ws[1][0] != '-';
      match Apply(e, ws[0][1], if takes then ws[1] else [])
      case None => None
      case Some(f) => Options(if takes then ws[2..] else ws[1..], f)
  }

  function Kind(w: string): Option<EType> {
    if w == "tcp" then Some(TCP) else if w == "ssl" then Some(SSL) else if w == "udp" then Some(UDP) else None
  }

  function Cleared(e: Fields): Fields {
    e.(grid := 0, qos := 0, weight := -1, weighttype := 0, authType := 0)
  }

  /** The end of parse(). */
  function Settle(e: Fields, ipv6: AddressTest): Option<Fields> {
    var weight := if e.weighttype == 0 then e.weight else if e.weight == -1 || e.weight > 100 then 100 else e.weight;
    if e.host == [] then None
    else
      var host := if e.host == "*" then "0.0.0.0" else e.host;
      Some(e.(weight := weight, host := host, isIPv6 := ipv6(host)))
  }

  function Parse(s: string, e: Fields, ipv6: AddressTest): Option<Fields> {
    var ws := Words(s);
    if ws == [] || Kind(ws[0]) == None then None
    else
      match Options(ws[1..], Cleared(e).(etype := Kind(ws[0]).value))
      case None => None
      case Some(f) => Settle(f, ipv6)
  }

  // ----- the printer -----

  function Field(letter: char, v: string): string {
    " -" + [letter] + " " + v
  }

  function When(b: bool, s: string): string {
    if b then s else ""
  }

  function KindName(t: EType): string {
    match t case TCP => "tcp" case UDP => "udp" case SSL => "ssl"
  }

  /** The options with numbers, in the order in which they are printed, and whether they are. */
  datatype Opts = End | Opt(shown: bool, letter: char, n: int, rest: Opts)

  function Text(os: Opts): string {
    match os
    case End => ""
    case Opt(shown, letter, n, rest) => When(shown, Field(letter, Dec(n))) + Text(rest)
  }

  function Weights(e: Fields): Opts {
    Opt(e.weight != -1, 'w', e.weight, Opt(e.weighttype != 0, 'v', e.weighttype, Opt(e.authType != 0, 'e', e.authType, End)))
  }

  function Numbers(e: Fields): Opts {
    Opt(true, 'p', e.port, Opt(true, 't', e.timeout, Opt(e.grid != 0, 'g', e.grid, Opt(e.qos != 0, 'q', e.qos, Weights(e)))))
  }

  /** toString(). */
  function ToString(e: Fields): string {
    KindName(e.etype) + (Field('h', e.host) + Text(Numbers(e)))
  }

  // ----- the words of a printed address -----

  lemma WordsBlank(c: char, s: string)
    requires IsDelim(c)
    ensures Words([c] + s) == Words(s)
  {
    var t := [c] + s;
    assert t[1..] == s;
    assert Blank(t) == 1 + Blank(s);
    assert t[Blank(t)..] == s[Blank(s)..];
  }

  lemma {:induction false} WordAt(w: string, rest: string)
    requires forall i :: 0 <= i < |w| ==> !IsDelim(w[i])
    requires rest != [] ==> IsDelim(rest[0])
    ensures Word(w + rest) == |w|
  {
    if w == [] {
      assert w + rest == rest;
    } else {
      assert (w + rest)[1..] == w[1..] + rest;
      WordAt(w[1..], rest);
    }
  }

  lemma WordsWord(w: string, rest: string)
    requires IsWord(w) && (rest != [] ==> IsDelim(rest[0]))
    ensures Words(w + rest) == [w] + Words(rest)
  {
    var t := w + rest;
    assert Blank(t) == 0 && t[0..] == t;
    WordAt(w, rest);
    assert t[..|w|] == w && t[|w|..] == rest;
  }

  /** A text after which the next word can only start behind a blank. */
  predicate Tail(s: string) {
    s != [] ==> s[0] == ' '
  }

  lemma WordsField(letter: char, v: string, rest: string)
    requires !IsDelim(letter) && IsWord(v) && Tail(rest)
    ensures Words(Field(letter, v) + rest) == ["-" + [letter], v] + Words(rest)
    ensures Tail(Field(letter, v) + rest)
  {
    FieldText(letter, v, rest);
    TwoWords("-" + [letter], v, rest);
  }

  lemma TwoWords(name: string, v: string, rest: string)
    requires IsWord(name) && IsWord(v) && Tail(rest)
    ensures Words([' '] + (name + ([' '] + (v + rest)))) == [name, v] + Words(rest)
  {
    NextWord(name, [' '] + (v + rest));
    NextWord(v, rest);
    Pair(name, v, Words(rest));
  }

  lemma Pair(a: string, b: string, ws: seq<string>)
    ensures [a] + ([b] + ws) == [a, b] + ws
  {
  }

  lemma NextWord(w: string, rest: string)
    requires IsWord(w) && (rest != [] ==> rest[0] == ' ')
    ensures Words([' '] + (w + rest)) == [w] + Words(rest)
  {
    WordsBlank(' ', w + rest);
    WordsWord(w, rest);
  }

  lemma FieldText(letter: char, v: string, rest: string)
    ensures Field(letter, v) + rest == [' '] + (("-" + [letter]) + ([' '] + (v + rest)))
  {
  }

  /** The words of one option, if it is printed. */
  function Item(b: bool, letter: char, n: int): seq<string> {
    if b then ["-" + [letter], Dec(n)] else []
  }

  function WordsOf(os: Opts): seq<string> {
    match os
    case End => []
    case Opt(shown, letter, n, rest) => Item(shown, letter, n) + WordsOf(rest)
  }

  lemma DecIsWord(n: int)
    ensures IsWord(Dec(n)) && (Dec(n)[0] == '-' <==> n < 0)
  {
    if n < 0 {
      var v, d := Dec(n), Digits(-n);
      assert v == ['-'] + d;
      assert forall i :: 1 <= i < |v| ==> v[i] == d[i - 1] && IsDigit(d[i - 1]);
    } else {
      ScanDec(n);
    }
  }

  lemma TextItem(b: bool, letter: char, n: int, rest: string, ws: seq<string>)
    requires !IsDelim(letter) && Tail(rest) && Words(rest) == ws
    ensures Tail(When(b, Field(letter, Dec(n))) + rest)
    ensures Words(When(b, Field(letter, Dec(n))) + rest) == Item(b, letter, n) + ws
  {
    if b {
      DecIsWord(n);
      WordsField(letter, Dec(n), rest);
    } else {
      assert "" + rest == rest && [] + ws == ws;
    }
  }

  /** The numbers are what the parser can take, but for the sign. */
  predicate Fit(os: Opts) {
    os.Opt? ==> Fits(os.letter, os.n) && Fit(os.rest)
  }

  predicate Fits(letter: char, n: int) {
    match letter
    case 'p' => 0 <= n <= 65535
    case 't' => n <= 0x7fff_ffff
    case 'g' => n <= 0x7fff_ffff
    case 'q' => n <= 0x7fff_ffff
    case 'w' => n <= 0x7fff_ffff
    case 'v' => 0 <= n <= 0xffff_ffff
    case 'e' => 0 <= n <= 1
    case _ => false
  }

  lemma {:induction false} TextWords(os: Opts)
    requires Fit(os)
    ensures Tail(Text(os)) && Words(Text(os)) == WordsOf(os)
  {
    match os {
      case End =>
      case Opt(shown, letter, n, rest) =>
        TextWords(rest);
        TextItem(shown, letter, n, Text(rest), WordsOf(rest));
    }
  }

  lemma HostWords(host: string, rest: string)
    requires IsWord(host) && Tail(rest)
    ensures Tail(Field('h', host) + rest) && Words(Field('h', host) + rest) == ["-h", host] + Words(rest)
  {
    WordsField('h', host, rest);
    assert "-" + ['h'] == "-h";
  }

  /** The words of a printed address. */
  lemma PrintedWords(kind: string, host: string, text: string)
    requires IsWord(kind) && IsWord(host) && Tail(text)
    ensures Words(kind + (Field('h', host) + text)) == [kind] + (["-h", host] + Words(text))
  {
    HostWords(host, text);
    WordsWord(kind, Field('h', host) + text);
  }

  // ----- reading the words again -----

  /** An address with the field of an option set. */
  function Set(letter: char, n: int, x: Fields): Fields {
    match letter
    case 'p' => x.(port := n)
    case 't' => x.(timeout := n)
    case 'g' => x.(grid := n)
    case 'q' => x.(qos := n)
    case 'w' => x.(weight := n)
    case 'v' => x.(weighttype := n)
    case 'e' => x.(authType := n)
    case _ => x
  }

  lemma ApplyDec(letter: char, n: nat, x: Fields)
    requires Fits(letter, n)
    ensures Apply(x, letter, Dec(n)) == Some(Set(letter, n, x))
  {
    ScanDec(n);
    ScannedInt(Dec(n), n);
    ApplyRead(letter, n, Dec(n), x);
  }

  lemma ScannedInt(w: string, n: nat)
    requires Scan(w) == Some((false, n))
    ensures n <= 0x7fff_ffff ==> ScanInt(w) == Some(n)
    ensures n <= 0xffff_ffff ==> ScanUnsigned(w) == Some(n)
  {
  }

  lemma ApplyRead(letter: char, n: nat, w: string, x: Fields)
    requires Fits(letter, n)
    requires n <= 0x7fff_ffff ==> ScanInt(w) == Some(n)
    requires n <= 0xffff_ffff ==> ScanUnsigned(w) == Some(n)
    ensures Apply(x, letter, w) == Some(Set(letter, n, x))
  {
  }

  lemma TwoTaken(letter: char, argument: string, rest: seq<string>, x: Fields)
    requires argument != [] && argument[0] != '-' && NoneEmpty(rest)
    ensures NoneEmpty(["-" + [letter], argument] + rest)
    ensures Options(["-" + [letter], argument] + rest, x) ==
            match Apply(x, letter, argument) case None => None case Some(y) => Options(rest, y)
  {
    var ws := ["-" + [letter], argument] + rest;
    assert ws[0][1] == letter && ws[2..] == rest;
  }

  lemma ItemRead(letter: char, n: nat, rest: seq<string>, x: Fields)
    requires NoneEmpty(rest) && Fits(letter, n)
    ensures NoneEmpty(Item(true, letter, n) + rest)
    ensures Options(Item(true, letter, n) + rest, x) == Options(rest, Set(letter, n, x))
  {
    DecIsWord(n);
    ApplyDec(letter, n, x);
    TwoTaken(letter, Dec(n), rest, x);
  }

  /** A negative number looks like another option. */
  lemma NegativeItem(letter: char, n: int, rest: seq<string>, x: Fields)
    requires letter in ['t', 'g', 'q', 'w'] && n < 0 && NoneEmpty(rest)
    ensures NoneEmpty(Item(true, letter, n) + rest)
    ensures Options(Item(true, letter, n) + rest, x) == None
  {
    DecIsWord(n);
    NothingToRead(letter, x);
    DashedArgument(["-" + [letter], Dec(n)] + rest, x);
  }

  lemma NothingToRead(letter: char, e: Fields)
    requires letter in ['t', 'g', 'q', 'w']
    ensures Apply(e, letter, []) == None
  {
    assert Scan([]) == None;
  }

  lemma DashedArgument(ws: seq<string>, e: Fields)
    requires |ws| > 1 && NoneEmpty(ws) && |ws[0]| == 2 && ws[1][0] == '-'
    requires Apply(e, ws[0][1], []) == None
    ensures Options(ws, e) == None
  {
  }

  /** What printed options make of an address: a negative number is refused. */
  function Reads(os: Opts, x: Fields): Option<Fields> {
    match os
    case End => Some(x)
    case Opt(shown, letter, n, rest) =>
      if !shown then Reads(rest, x) else if n < 0 then None else Reads(rest, Set(letter, n, x))
  }

  lemma {:induction false} OptionsRead(os: Opts, x: Fields)
    requires Fit(os)
    ensures NoneEmpty(WordsOf(os)) && Options(WordsOf(os), x) == Reads(os, x)
  {
    match os {
      case End =>
      case Opt(shown, letter, n, rest) =>
        if !shown {
          OptionsRead(rest, x);
          assert [] + WordsOf(rest) == WordsOf(rest);
        } else if n < 0 {
          OptionsRead(rest, x);
          NegativeItem(letter, n, WordsOf(rest), x);
        } else {
          OptionsRead(rest, Set(letter, n, x));
          ItemRead(letter, n, WordsOf(rest), x);
        }
    }
  }

  // ----- round trips -----

  /** The numbers of a parsed address. */
  predicate Ranged(e: Fields) {
    && 0 <= e.port <= 65535 && -0x8000_0000 <= e.timeout <= 0x7fff_ffff
    && -0x8000_0000 <= e.grid <= 0x7fff_ffff && -0x8000_0000 <= e.qos <= 0x7fff_ffff
    && -0x8000_0000 <= e.weight <= 0x7fff_ffff && 0 <= e.weighttype <= 0xffff_ffff && 0 <= e.authType <= 1
  }

  /** What every address that parse() makes from a default one is like. */
  predicate Canonical(e: Fields, ipv6: AddressTest) {
    && Ranged(e) && IsWord(e.host) && e.host[0] != '-' && e.host != "*" && e.isIPv6 == ipv6(e.host)
    && (e.weighttype != 0 ==> e.weight != -1 && e.weight <= 100)
  }

  /** The numbers that are printed are not negative. */
  predicate Printable(e: Fields) {
    e.timeout >= 0 && e.grid >= 0 && e.qos >= 0 && e.weight >= -1
  }

  lemma ReadWeights(e: Fields, x: Fields)
    requires Ranged(e) && x.authType == 0 && x.weighttype == 0 && x.weight == -1
    ensures Fit(Weights(e))
    ensures Reads(Weights(e), x) == if e.weight < -1 then None
              else Some(x.(weight := e.weight, weighttype := e.weighttype, authType := e.authType))
  {
    var auth := Opt(e.authType != 0, 'e', e.authType, End);
    var kind := Opt(e.weighttype != 0, 'v', e.weighttype, auth);
    var y := x.(weight := e.weight);
    var z := y.(weighttype := e.weighttype);
    assert Fit(auth) && Reads(auth, z) == Some(z.(authType := e.authType));
    assert Fit(kind) && Reads(kind, y) == Reads(auth, z);
  }

  lemma ReadNumbers(e: Fields, x: Fields)
    requires Ranged(e) && x == Cleared(x)
    ensures Fit(Numbers(e))
    ensures Reads(Numbers(e), x) == if !Printable(e) then None
              else Some(e.(host := x.host, etype := x.etype, isIPv6 := x.isIPv6))
  {
    var qos := Opt(e.qos != 0, 'q', e.qos, Weights(e));
    var grid := Opt(e.grid != 0, 'g', e.grid, qos);
    var timeout := Opt(true, 't', e.timeout, grid);
    var x1 := x.(port := e.port);
    var x2 := x1.(timeout := e.timeout);
    var x3 := x2.(grid := e.grid);
    var x4 := x3.(qos := e.qos);
    ReadWeights(e, x4);
    assert Fit(qos) && Reads(qos, x3) == if e.qos < 0 then None else Reads(Weights(e), x4);
    assert Fit(grid) && Reads(grid, x2) == if e.grid < 0 then None else Reads(qos, x3);
    assert Fit(timeout) && Reads(timeout, x1) == if e.timeout < 0 then None else Reads(grid, x2);
  }

  lemma ReadPrinted(e: Fields, x: Fields)
    requires Ranged(e) && IsWord(e.host) && e.host[0] != '-' && x == Cleared(x)
    ensures Fit(Numbers(e)) && NoneEmpty(["-h", e.host] + WordsOf(Numbers(e)))
    ensures Options(["-h", e.host] + WordsOf(Numbers(e)), x) ==
            if !Printable(e) then None else Some(e.(etype := x.etype, isIPv6 := x.isIPv6))
  {
    var y := x.(host := e.host);
    ReadNumbers(e, y);
    OptionsRead(Numbers(e), y);
    TwoTaken('h', e.host, WordsOf(Numbers(e)), x);
  }

  lemma SettleCanonical(e: Fields, f: Fields, ipv6: AddressTest)
    requires Canonical(e, ipv6) && f == e.(isIPv6 := f.isIPv6)
    ensures Settle(f, ipv6) == Some(e)
  {
  }

  lemma KindNamed(t: EType)
    ensures Kind(KindName(t)) == Some(t) && IsWord(KindName(t))
  {
  }

  lemma ParseWords(s: string, kind: string, t: EType, ws: seq<string>, into: Fields, ipv6: AddressTest)
    requires Words(s) == [kind] + ws && NoneEmpty(ws) && Kind(kind) == Some(t)
    ensures Parse(s, into, ipv6) ==
            match Options(ws, Cleared(into).(etype := t))
            case None => None
            case Some(f) => Settle(f, ipv6)
  {
    assert Words(s)[1..] == ws;
  }

  lemma ToStringWords(e: Fields)
    requires IsWord(e.host) && Fit(Numbers(e))
    ensures Words(ToString(e)) == [KindName(e.etype)] + (["-h", e.host] + WordsOf(Numbers(e)))
  {
    TextWords(Numbers(e));
    KindNamed(e.etype);
    PrintedWords(KindName(e.etype), e.host, Text(Numbers(e)));
  }

  lemma ParseGiven(s: string, kind: string, ws: seq<string>, e: Fields, into: Fields, ipv6: AddressTest)
    requires Canonical(e, ipv6) && Words(s) == [kind] + ws && NoneEmpty(ws) && Kind(kind) == Some(e.etype)
    requires var x := Cleared(into).(etype := e.etype);
             Options(ws, x) == if !Printable(e) then None else Some(e.(etype := x.etype, isIPv6 := x.isIPv6))
    ensures Parse(s, into, ipv6) == if Printable(e) then Some(e) else None
  {
    ParseWords(s, kind, e.etype, ws, into, ipv6);
    if Printable(e) {
      SettleCanonical(e, e.(isIPv6 := into.isIPv6), ipv6);
    }
  }

  /** A parsed address, printed and parsed again into any address, is itself exactly when no number of
      it is negative; otherwise the parser refuses the text. */
  lemma PrintedIsParsed(e: Fields, into: Fields, ipv6: AddressTest)
    requires Canonical(e, ipv6)
    ensures Parse(ToString(e), into, ipv6) == if Printable(e) then Some(e) else None
  {
    ReadPrinted(e, Cleared(into).(etype := e.etype));
    ToStringWords(e);
    KindNamed(e.etype);
    ParseGiven(ToString(e), KindName(e.etype), ["-h", e.host] + WordsOf(Numbers(e)), e, into, ipv6);
  }

  lemma {:induction false} OptionsCanonical(ws: seq<string>, e: Fields)
    requires NoneEmpty(ws) && forall i :: 0 <= i < |ws| ==> IsWord(ws[i])
    requires Ranged(e) && IsWord(e.host) && e.host[0] != '-'
    ensures Options(ws, e).Some? ==> var f := Options(ws, e).value; Ranged(f) && IsWord(f.host) && f.host[0] != '-'
    decreases |ws|
  {
    if ws != [] && |ws[0]| == 2 && ws[0][0] == '-' {
      var takes := |ws| > 1 && ws[1][0] != '-';
      var argument: string := if takes then ws[1] else [];
      var f := Apply(e, ws[0][1], argument);
      if f.Some? {
        ApplyRanged(e, ws[0][1], argument);
        OptionsCanonical(if takes then ws[2..] else ws[1..], f.value);
      }
    }
  }

  lemma ApplyRanged(e: Fields, letter: char, argument: string)
    requires Ranged(e) && IsWord(e.host) && e.host[0] != '-'
    requires argument != [] ==> IsWord(argument) && argument[0] != '-'
    ensures Apply(e, letter, argument).Some? ==>
              var f := Apply(e, letter, argument).value; Ranged(f) && IsWord(f.host) && f.host[0] != '-'
  {
    ApplyHost(e, letter, argument);
    ApplyNumbers(e, letter, argument);
  }

  lemma ApplyHost(e: Fields, letter: char, argument: string)
    ensures Apply(e, letter, argument).Some? ==>
              var host := Apply(e, letter, argument).value.host;
              if letter == 'h' then host == argument != [] else host == e.host
  {
  }

  lemma ApplyNumbers(e: Fields, letter: char, argument: string)
    requires Ranged(e)
    ensures Apply(e, letter, argument).Some? ==> Ranged(Apply(e, letter, argument).value)
  {
    match letter {
      case 't' =>
      case 'g' =>
      case 'q' =>
      case 'w' =>
      case _ =>
    }
  }

  lemma ParsedIsCanonical(s: string, ipv6: AddressTest)
    requires Parse(s, Default(ipv6), ipv6).Some?
    ensures Canonical(Parse(s, Default(ipv6), ipv6).value, ipv6)
  {
    var ws := Words(s);
    var e := Cleared(Default(ipv6)).(etype := Kind(ws[0]).value);
    assert IsWord("0.0.0.0");
    OptionsCanonical(ws[1..], e);
  }

  /** Parsing and printing agree for every text, but for one thing: a negative number, which can only be
      written behind a vertical tab or a form feed, is printed in a form that is not parsed. */
  lemma ParsePrintParse(s: string, into: Fields, ipv6: AddressTest)
    requires Parse(s, Default(ipv6), ipv6).Some?
    ensures var e := Parse(s, Default(ipv6), ipv6).value;
            Parse(ToString(e), into, ipv6) == if Printable(e) then Some(e) else None
  {
    ParsedIsCanonical(s, ipv6);
    PrintedIsParsed(Parse(s, Default(ipv6), ipv6).value, into, ipv6);
  }

  // ----- which texts hold negative numbers -----

  predicate Plain(s: string) {
    forall i :: 0 <= i < |s| ==> !IsOddSpace(s[i])
  }

  predicate AllPlain(ws: seq<string>) {
    forall i :: 0 <= i < |ws| ==> Plain(ws[i])
  }

  lemma {:induction false} WordsPlain(s: string)
    requires Plain(s)
    ensures AllPlain(Words(s))
    decreases |s|
  {
    var t := s[Blank(s)..];
    if t != [] {
      WordsPlain(t[Word(t)..]);
    }
  }

  lemma ScanPlain(w: string)
    requires Plain(w) && (w != [] ==> w[0] != '-')
    ensures Scan(w).Some? ==> !Scan(w).value.0
  {
  }

  lemma ApplyPlain(e: Fields, letter: char, argument: string)
    requires Printable(e) && Plain(argument) && (argument != [] ==> argument[0] != '-')
    ensures Apply(e, letter, argument).Some? ==> Printable(Apply(e, letter, argument).value)
  {
    ScanPlain(argument);
  }

  lemma {:induction false} OptionsPlain(ws: seq<string>, e: Fields)
    requires NoneEmpty(ws) && AllPlain(ws) && Printable(e)
    ensures Options(ws, e).Some? ==> Printable(Options(ws, e).value)
    decreases |ws|
  {
    if ws != [] && |ws[0]| == 2 && ws[0][0] == '-' {
      var takes := |ws| > 1 && ws[1][0] != '-';
      var argument: string := if takes then ws[1] else [];
      ApplyPlain(e, ws[0][1], argument);
      var f := Apply(e, ws[0][1], argument);
      if f.Some? {
        OptionsPlain(if takes then ws[2..] else ws[1..], f.value);
      }
    }
  }

  /** A text without vertical tabs and form feeds goes round: parsed, printed and parsed again, it gives
      the same address. */
  lemma PlainGoesRound(s: string, into: Fields, ipv6: AddressTest)
    requires Plain(s) && Parse(s, Default(ipv6), ipv6).Some?
    ensures var e := Parse(s, Default(ipv6), ipv6).value; Parse(ToString(e), into, ipv6) == Some(e)
  {
    ParsePrintParse(s, into, ipv6);
    WordsPlain(s);
    var ws := Words(s);
    OptionsPlain(ws[1..], Cleared(Default(ipv6)).(etype := Kind(ws[0]).value));
  }

  /** The default address, but for its kind and timeout. */
  function Started(t: EType, n: int, ipv6: AddressTest): Fields {
    Default(ipv6).(etype := t, timeout := n)
  }

  lemma StartedSettles(t: EType, n: int, ipv6: AddressTest)
    requires -0x8000_0000 <= n <= 0x7fff_ffff
    ensures Settle(Started(t, n, ipv6), ipv6) == Some(Started(t, n, ipv6)) && Canonical(Started(t, n, ipv6), ipv6)
  {
  }

  lemma OneOptionWords(kind: string, w: string)
    requires IsWord(kind) && IsWord(w)
    ensures Words(kind + Field('t', w)) == [kind] + (["-" + ['t'], w] + [])
  {
    WordsField('t', w, "");
    assert Field('t', w) + "" == Field('t', w) && Words("") == [];
    WordsWord(kind, Field('t', w));
  }

  lemma OneOptionParsed(kind: string, t: EType, w: string, n: int, ipv6: AddressTest)
    requires IsWord(kind) && Kind(kind) == Some(t) && IsWord(w) && w[0] != '-' && ScanInt(w) == Some(n)
    ensures Parse(kind + Field('t', w), Default(ipv6), ipv6) == Settle(Started(t, n, ipv6), ipv6)
  {
    OneOptionWords(kind, w);
    var x := Cleared(Default(ipv6)).(etype := t);
    TwoTaken('t', w, [], x);
    ParseWords(kind + Field('t', w), kind, t, ["-" + ['t'], w] + [], Default(ipv6), ipv6);
  }

  /** Behind a vertical tab a negative timeout gets through the parser, and is printed in a form that
      does not. */
  lemma NegativeDoesNot(t: EType, n: int, into: Fields, ipv6: AddressTest)
    requires -0x8000_0000 <= n < 0
    ensures var s := KindName(t) + Field('t', "\U{0B}" + Dec(n));
            && Parse(s, Default(ipv6), ipv6) == Some(Started(t, n, ipv6))
            && Parse(ToString(Started(t, n, ipv6)), into, ipv6) == None
  {
    ScanBehindTab(n);
    KindNamed(t);
    StartedSettles(t, n, ipv6);
    OneOptionParsed(KindName(t), t, "\U{0B}" + Dec(n), n, ipv6);
    PrintedIsParsed(Started(t, n, ipv6), into, ipv6);
  }

  lemma ScanBehindTab(n: int)
    requires n < 0
    ensures var w := "\U{0B}" + Dec(n); Scan(w) == Some((true, -n)) && IsWord(w) && w[0] != '-'
  {
    DecIsWord(n);
    DigitsValue(-n);
    assert Dec(n) == ['-'] + Digits(-n);
    StripTab(Digits(-n));
  }

  lemma StripTab(d: string)
    requires d != [] && forall i :: 0 <= i < |d| ==> IsDigit(d[i])
    ensures Scan("\U{0B}" + (['-'] + d)) == Some((true, Value(d)))
  {
    var t := ['-'] + d;
    assert ("\U{0B}" + t)[1..] == t && t[1..] == d;
  }

  // ----- parse() itself -----

  method FindFirstNotOf(s: string, from: nat) returns (r: nat)
    requires from <= |s|
    ensures r == from + Blank(s[from..])
  {
    r := from;
    while r < |s| && IsDelim(s[r])
      invariant from <= r <= |s| && from + Blank(s[from..]) == r + Blank(s[r..])
    {
      assert s[r..][1..] == s[r + 1..];
      r := r + 1;
    }
  }

  method FindFirstOf(s: string, from: nat) returns (r: nat)
    requires from <= |s|
    ensures r == from + Word(s[from..])
  {
    r := from;
    while r < |s| && !IsDelim(s[r])
      invariant from <= r <= |s| && from + Word(s[from..]) == r + Word(s[r..])
    {
      assert s[r..][1..] == s[r + 1..];
      r := r + 1;
    }
  }

  lemma WordsCut(s: string, t: string, w: string, rest: string)
    requires t == s[Blank(s)..] && t != [] && w == t[..Word(t)] && rest == t[Word(t)..]
    ensures Words(s) == [w] + Words(rest)
  {
  }

  lemma WordsNone(s: string)
    requires Blank(s) == |s|
    ensures Words(s) == []
  {
    assert s[Blank(s)..] == [];
  }

  /** The next word of a text from a place on, and where it ends. */
  method NextWordOf(s: string, from: nat) returns (beg: nat, end: nat)
    requires from <= |s|
    ensures from <= beg <= end <= |s|
    ensures beg == |s| ==> Words(s[from..]) == []
    ensures beg < |s| ==> beg < end && Words(s[from..]) == [s[beg..end]] + Words(s[end..])
  {
    beg := FindFirstNotOf(s, from);
    if beg == |s| {
      WordsNone(s[from..]);
      return beg, beg;
    }
    end := FindFirstOf(s, beg);
    WordsCut(s[from..], s[beg..], s[beg..end], s[end..]);
  }

  /** The word after an option, unless it starts with a dash. */
  method ReadArgument(desc: string, stop: nat) returns (argument: string, end: nat)
    requires stop <= |desc|
    ensures stop <= end <= |desc|
    ensures var rest := Words(desc[stop..]);
            if rest != [] && rest[0] != [] && rest[0][0] != '-' then rest == [argument] + Words(desc[end..])
            else argument == [] && end == stop
  {
    var beg, after := NextWordOf(desc, stop);
    if beg != |desc| && desc[beg] != '-' {
      return desc[beg..after], after;
    }
    return "", stop;
  }

  lemma BadOption(ws: seq<string>, e: Fields)
    requires NoneEmpty(ws) && ws != [] && (|ws[0]| != 2 || ws[0][0] != '-')
    ensures Options(ws, e) == None
  {
  }

  /** One option, with its argument if the next word is one. */
  lemma OneOption(option: string, rest: seq<string>, argument: string, after: seq<string>, e: Fields)
    requires |option| == 2 && option[0] == '-' && NoneEmpty([option] + rest)
    requires if rest != [] && rest[0] != [] && rest[0][0] != '-' then rest == [argument] + after
             else argument == [] && after == rest
    ensures NoneEmpty(after)
    ensures Options([option] + rest, e) ==
            match Apply(e, option[1], argument) case None => None case Some(f) => Options(after, f)
  {
    var ws := [option] + rest;
    assert ws[1..] == rest && forall i :: 0 <= i < |rest| ==> rest[i] == ws[i + 1];
    if rest != [] && rest[0][0] != '-' {
      assert ws[2..] == after;
      assert forall i :: 0 <= i < |after| ==> after[i] == ws[i + 2];
    }
  }

  class Endpoint {
    const ipv6: AddressTest
    var f: Fields

    constructor (test: AddressTest)
      ensures ipv6 == test && f == Default(test)
    {
      ipv6, f := test, Default(test);
    }

    method ParseText(str: string) returns (ok: bool)
      modifies this
      ensures ok == Parse(str, old(f), ipv6).Some?
      ensures ok ==> f == Parse(str, old(f), ipv6).value
    {
      f := Cleared(f);
      assert str[0..] == str;
      var beg, end := NextWordOf(str, 0);
      if beg == |str| {
        return false;
      }
      var kind := Kind(str[beg..end]);
      if kind == None {
        return false;
      }
      f := f.(etype := kind.value);
      ghost var start := f;
      ok := ParseOptions(str[end..]);
      ParseWords(str, str[beg..end], kind.value, Words(str[end..]), old(f), ipv6);
      if !ok {
        return;
      }
      var settled := Settle(f, ipv6);
      if settled == None {
        return false;
      }
      f := settled.value;
    }

    /** The loop over the options. */
    method ParseOptions(desc: string) returns (ok: bool)
      modifies this
      ensures ok == Options(Words(desc), old(f)).Some?
      ensures ok ==> f == Options(Words(desc), old(f)).value
    {
      var end := 0;
      assert desc[0..] == desc;
      while true
        invariant end <= |desc| && Options(Words(desc[end..]), f) == Options(Words(desc), old(f))
        decreases |desc| - end
      {
        var beg, stop := NextWordOf(desc, end);
        if beg == |desc| {
          return true;
        }
        ok, end := ParseOption(desc, end, desc[beg..stop], stop);
        if !ok {
          return;
        }
      }
    }

    method ParseOption(desc: string, ghost from: nat, option: string, stop: nat) returns (ok: bool, end: nat)
      requires from <= |desc| && stop <= |desc| && option != []
      requires Words(desc[from..]) == [option] + Words(desc[stop..])
      modifies this
      ensures !ok ==> Options(Words(desc[from..]), old(f)) == None
      ensures ok ==> stop <= end <= |desc| && Options(Words(desc[end..]), f) == Options(Words(desc[from..]), old(f))
    {
      ghost var rest := Words(desc[stop..]);
      if |option| != 2 || option[0] != '-' {
        BadOption([option] + rest, f);
        return false, stop;
      }
      var argument;
      argument, end := ReadArgument(desc, stop);
      OneOption(option, rest, argument, Words(desc[end..]), f);
      var changed := Apply(f, option[1], argument);
      if changed == None {
        return false, end;
      }
      f := changed.value;
      ok := true;
    }
  }
}
