/**
 * The OSC paths Mixer::osc_strip_by_number rewrites: a message addressed
 * to `client/strip#/N/rest` is forwarded to `client/strip/NAME/rest`, NAME
 * being the name of strip number N.
 */
module OscPath {
  import opened Options
  import opened CText

  /** The three parts sscanf takes out of a strip-number path. */
  datatype StripAddress = StripAddress(client: string, number: int, rest: string)

  /** What the handler does with a message: -1 (not its message), or 0 after dropping or forwarding it. */
  datatype OscOutcome = Unmatched | NoSuchStrip | Forwarded(path: string)

  function ReturnCode(o: OscOutcome): int {
    if o.Unmatched? then -1 else 0
  }

  predicate NotSlash(c: char) {
    c != '/'
  }

  predicate NotNewline(c: char) {
    c != '\n'
  }

  /** What `%m[^/]` can match: at least one character, no '/'. */
  predicate ValidClient(c: string) {
    0 < |c| && forall i :: 0 <= i < |c| ==> c[i] != '/'
  }

  /** What `%m[^\n]` can match: at least one character, no newline. */
  predicate ValidRest(r: string) {
    0 < |r| && forall i :: 0 <= i < |r| ==> r[i] != '\n'
  }

  /** The path a message for strip number N is sent to, with N written by `%d`. */
  function NumberedPath(a: StripAddress): string {
    a.client + "/strip#/" + FormatInt(a.number) + "/" + a.rest
  }

  /** The path the handler forwards the message to. */
  function NamedPath(client: string, name: string, rest: string): string {
    client + "/strip/" + name + "/" + rest
  }

  /**
   * sscanf(path, "%m[^/]/strip#/%d/%m[^\n]", &client, &n, &rest) == 3: the
   * first segment, the literal "/strip#/", a `%d` number, a '/', and the
   * rest of the line.
   */
  function Parse(path: string): (r: Option<StripAddress>)
    ensures r.Some? ==> ValidClient(r.value.client) && ValidRest(r.value.rest)
    ensures r.Some? ==> r.value.client + "/strip#/" <= path
  {
    var c := Span(path, NotSlash);
    if c == 0 || c + 8 > |path| || path[c..c + 8] != "/strip#/" then None
    else
      var nr := ParseNumberAndRest(path[c + 8..]);
      if nr.None? then None
      else
        MarkerPrefix(path, c);
        Some(StripAddress(path[..c], nr.value.0, nr.value.1))
  }

  /** The first segment and the literal after it are a prefix of the path. */
  lemma MarkerPrefix(path: string, c: nat)
    requires c + 8 <= |path| && path[c..c + 8] == "/strip#/"
    ensures path[..c] + "/strip#/" <= path
  {
    assert path[..c + 8] == path[..c] + path[c..c + 8];
  }

  /** The part of the format after "/strip#/": `%d`, a '/', then `%m[^\n]`. */
  function ParseNumberAndRest(s: string): (r: Option<(int, string)>)
    ensures r.Some? ==> ValidRest(r.value.1)
  {
    var num := ScanInt(s);
    if num.None? then None else ParseSlashRest(num.value.0, s[num.value.1..])
  }

  /** What follows the number: a '/', then `%m[^\n]`, at least one character up to the end of the line. */
  function ParseSlashRest(n: int, tail: string): (r: Option<(int, string)>)
    ensures r.Some? ==> ValidRest(r.value.1)
  {
    if |tail| == 0 || tail[0] != '/' then None
    else
      var k := Span(tail[1..], NotNewline);
      if k == 0 then None else Some((n, tail[1..][..k]))
  }

  /** After the number, `/%m[^\n]` takes the rest of the line. */
  lemma SlashRestOfLine(n: int, rest: string, tail: string)
    requires ValidRest(rest)
    requires tail == [] || tail[0] == '\n'
    ensures ParseSlashRest(n, "/" + rest + tail) == Some((n, rest))
  {
    assert ("/" + rest + tail)[1..] == rest + tail;
    SpanOfConcat(rest, tail, NotNewline);
    assert (rest + tail)[..|rest|] == rest;
  }

  lemma ParseNumberAndRestOfFormat(n: int, rest: string, tail: string)
    requires ValidRest(rest)
    requires tail == [] || tail[0] == '\n'
    ensures ParseNumberAndRest(FormatInt(n) + "/" + rest + tail) == Some((n, rest))
  {
    var afterNum := "/" + rest + tail;
    assert FormatInt(n) + "/" + rest + tail == FormatInt(n) + afterNum;
    ScanFormatInt(n, afterNum);
    assert (FormatInt(n) + afterNum)[|FormatInt(n)|..] == afterNum;
    SlashRestOfLine(n, rest, tail);
  }

  /** After a valid first segment and the literal "/strip#/", parsing goes on with the number. */
  lemma ParseAfterMarker(client: string, s: string)
    requires ValidClient(client)
    ensures var nr := ParseNumberAndRest(s);
      Parse(client + "/strip#/" + s) == if nr.None? then None else Some(StripAddress(client, nr.value.0, nr.value.1))
  {
    var u := "/strip#/" + s;
    assert client + "/strip#/" + s == client + u;
    SpanClient(client, u);
    assert u[..8] == "/strip#/" && u[8..] == s;
    assert (client + u)[..|client|] == client;
  }

  /** A numbered path parses back into its parts; anything after a newline is ignored. */
  lemma ParseNumberedPath(a: StripAddress, tail: string)
    requires ValidClient(a.client) && ValidRest(a.rest)
    requires tail == [] || tail[0] == '\n'
    ensures Parse(NumberedPath(a) + tail) == Some(a)
  {
    var fromNum := FormatInt(a.number) + "/" + a.rest + tail;
    assert NumberedPath(a) + tail == a.client + "/strip#/" + fromNum;
    ParseAfterMarker(a.client, fromNum);
    ParseNumberAndRestOfFormat(a.number, a.rest, tail);
  }

  /** `%m[^/]` takes a valid first segment and stops at the '/' after it. */
  lemma SpanClient(client: string, u: string)
    requires ValidClient(client)
    requires u != [] && u[0] == '/'
    ensures Span(client + u, NotSlash) == |client|
    ensures (client + u)[|client|..] == u
  {
    SpanOfConcat(client, u, NotSlash);
  }

  /** A forwarded path is never taken for a numbered one, so forwarding cannot loop. */
  lemma ParseRejectsNamedPath(client: string, name: string, rest: string)
    requires ValidClient(client)
    ensures Parse(NamedPath(client, name, rest)) == None
  {
    var u := "/strip/" + name + "/" + rest;
    assert NamedPath(client, name, rest) == client + u;
    SpanClient(client, u);
    var c := |client|;
    if c + 8 <= |client + u| {
      assert (client + u)[c..c + 8][6] == u[6] == '/';
    }
  }

  /** After "/strip#/", any number text `%d` reads up to a '/' is taken, and then the rest of the line. */
  lemma NumberAndRestOfParts(num: string, n: int, rest: string, tail: string, s: string)
    requires ValidRest(rest)
    requires ScanInt(num + "/") == Some((n, |num|))
    requires tail == [] || tail[0] == '\n'
    requires s == num + "/" + rest + tail
    ensures ParseNumberAndRest(s) == Some((n, rest))
  {
    SplitAtNumber(s, num, rest, tail);
    ScanIntStops(num + "/", rest + tail, s, |num|);
    SlashRestOfLine(n, rest, tail);
  }

  /** The two ways the number and the rest of the line are cut apart. */
  lemma SplitAtNumber(s: string, num: string, rest: string, tail: string)
    requires s == num + "/" + rest + tail
    ensures s == (num + "/") + (rest + tail)
    ensures s[|num|..] == "/" + rest + tail
  {
  }

  /**
   * Whatever number text `%d` reads up to the '/' (signs, leading zeros or
   * blanks included), the path parses into the value it reads.
   */
  lemma ParseOfParts(client: string, num: string, n: int, rest: string, tail: string)
    requires ValidClient(client) && ValidRest(rest)
    requires ScanInt(num + "/") == Some((n, |num|))
    requires tail == [] || tail[0] == '\n'
    ensures Parse(client + "/strip#/" + num + "/" + rest + tail) == Some(StripAddress(client, n, rest))
  {
    var s := num + "/" + rest + tail;
    assert client + "/strip#/" + num + "/" + rest + tail == client + "/strip#/" + s;
    ParseAfterMarker(client, s);
    NumberAndRestOfParts(num, n, rest, tail, s);
  }

  /** `%d` reads the whole of `num`, up to the '/' after it, as the value `n`. */
  predicate ReadsAs(num: string, n: int) {
    ScanInt(num + "/") == Some((n, |num|))
  }

  /** `%m[^\n]` stops here: at the end of the text or at a newline. */
  predicate EndOfLine(tail: string) {
    tail == [] || tail[0] == '\n'
  }

  /** `s` is a number text `num`, a '/', `rest`, and then the end of the line. */
  predicate NumberAndRestParts(s: string, num: string, rest: string, tail: string) {
    s == num + "/" + rest + tail && EndOfLine(tail)
  }

  /** `path` is the address `a` with its number written as `num`, and then the end of the line. */
  predicate PathParts(path: string, a: StripAddress, num: string, tail: string) {
    path == a.client + "/strip#/" + num + "/" + a.rest + tail && EndOfLine(tail)
  }

  /** What follows the number, when accepted, is the '/', the rest of the line, then the end of the line. */
  lemma SlashRestSound(s: string, n: int, rest: string, used: nat)
    requires used <= |s| && ParseSlashRest(n, s[used..]) == Some((n, rest))
    ensures used < |s| && s[used] == '/' && used + 1 + |rest| <= |s|
    ensures NumberAndRestParts(s, s[..used], rest, s[used + 1 + |rest|..])
  {
    var t := s[used..];
    assert t[1..] == rest + t[1..][|rest|..];
    assert s == s[..used] + t;
  }

  /** When `%d` reads `n` from `s` and a '/' follows, it reads `n` from the number text alone. */
  lemma ScanIntPrefix(s: string, n: int, used: nat)
    requires ScanInt(s) == Some((n, used))
    requires used < |s| && s[used] == '/'
    ensures ReadsAs(s[..used], n)
  {
    CutAtSlash(s, used);
    ScanIntStops(s[..used] + "/", s[used + 1..], s, used);
  }

  /** A text cut around one of its '/' characters. */
  lemma CutAtSlash(s: string, i: nat)
    requires i < |s| && s[i] == '/'
    ensures s == (s[..i] + "/") + s[i + 1..]
  {
  }

  /** What ParseNumberAndRest accepts: a number text `%d` reads up to a '/', the '/', the rest of the line, then nothing or a newline. */
  lemma NumberAndRestSound(s: string)
    requires ParseNumberAndRest(s).Some?
    ensures var r := ParseNumberAndRest(s).value;
      exists num, tail :: NumberAndRestParts(s, num, r.1, tail) && ReadsAs(num, r.0)
  {
    var r := ParseNumberAndRest(s).value;
    NumberAndRestSoundAt(s, r.0, r.1, ScanInt(s).value.1);
  }

  /** The same, once `%d` has read `n` from the first `used` characters. */
  lemma NumberAndRestSoundAt(s: string, n: int, rest: string, used: nat)
    requires ScanInt(s) == Some((n, used))
    requires ParseSlashRest(n, s[used..]) == Some((n, rest))
    ensures exists num, tail :: NumberAndRestParts(s, num, rest, tail) && ReadsAs(num, n)
  {
    SlashRestSound(s, n, rest, used);
    ScanIntPrefix(s, n, used);
  }

  /**
   * What Parse accepts is made of its parts: the first segment, the literal,
   * a number text `%d` reads as the number, a '/', the rest of the line, and
   * then nothing or a newline.
   */
  lemma ParseSound(path: string)
    requires Parse(path).Some?
    ensures exists num, tail :: PathParts(path, Parse(path).value, num, tail) && ReadsAs(num, Parse(path).value.number)
  {
    var a := Parse(path).value;
    var c := Span(path, NotSlash);
    var s := path[c + 8..];
    NumberAndRestSound(s);
    var num, tail :| NumberAndRestParts(s, num, a.rest, tail) && ReadsAs(num, a.number);
    PathJoin(path, a, c, num, tail);
  }

  /** The first segment, the literal and the number and rest make up the path again. */
  lemma PathJoin(path: string, a: StripAddress, c: nat, num: string, tail: string)
    requires c + 8 <= |path| && a.client == path[..c] && path[c..c + 8] == "/strip#/"
    requires NumberAndRestParts(path[c + 8..], num, a.rest, tail)
    ensures PathParts(path, a, num, tail)
  {
    assert path == path[..c] + path[c..c + 8] + path[c + 8..];
  }

  /** An address that starts with '/' leaves `%m[^/]` nothing to match, so it is never parsed. */
  lemma ParseRejectsRootedPath(s: string)
    ensures Parse("/" + s) == None
  {
    assert ("/" + s)[0] == '/';
  }
}
