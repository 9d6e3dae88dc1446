/**
 * The two small text formats of the mixer: the lines of the OSC
 * translation ("mappings") file, and the `file://` URL of a strip dropped
 * onto the window.
 */
module TextFormats {
  import opened Options
  import opened CText

  /**
   * One line as save_translations writes it with "%s |> %s\n": `first` is
   * the field before the arrow, `second` the field after it.
   */
  function MappingLine(first: string, second: string): string {
    first + " |> " + second + "\n"
  }

  /** The whole file save_translations writes for the translations in order. */
  function MappingsText(pairs: seq<(string, string)>): string {
    if pairs == [] then "" else MappingLine(pairs[0].0, pairs[0].1) + MappingsText(pairs[1..])
  }

  /** What the scan set `%m[^|> ]` accepts. */
  predicate InFromField(c: char) {
    c != '|' && c != '>' && c != ' '
  }

  /** What the scan set `%m[^ \n]` accepts. */
  predicate InToField(c: char) {
    c != ' ' && c != '\n'
  }

  /** What `%m[^|> ]` can store: at least one character, none of them '|', '>' or ' '. */
  predicate ValidFrom(a: string) {
    0 < |a| && forall i :: 0 <= i < |a| ==> InFromField(a[i])
  }

  /** What `%m[^ \n]` can store: at least one character, none of them ' ' or a newline. */
  predicate ValidTo(b: string) {
    0 < |b| && forall i :: 0 <= i < |b| ==> InToField(b[i])
  }

  /**
   * One call of fscanf(fp, "%m[^|> ] |> %m[^ \n]\n", &from, &to) on the
   * unread input `s`: Some((from, to, rest)) when it returns 2, `rest` being
   * the input it leaves unread. Each blank in the format skips any run of
   * white space, so the call also consumes the white space after `to`.
   */
  function ScanMapping(s: string): (r: Option<(string, string, string)>)
    ensures r.Some? ==> ValidFrom(r.value.0) && r.value.0 <= s
    ensures r.Some? ==> ValidTo(r.value.1)
    ensures r.Some? ==> |r.value.2| < |s| && (r.value.2 == [] || !IsSpace(r.value.2[0]))
  {
    var a := Span(s, InFromField);
    if a == 0 then None
    else
      var r := ScanArrowAndTo(s[a..]);
      if r.None? then None
      else
        assert ValidFrom(s[..a]) by {
          forall i | 0 <= i < a ensures InFromField(s[..a][i]) {
            assert s[..a][i] == s[i];
          }
        }
        assert |r.value.1| < |s[a..]| < |s|;
        Some((s[..a], r.value.0, r.value.1))
  }

  /** The part of the format after the first field: " |> %m[^ \n]\n". */
  function ScanArrowAndTo(s: string): (r: Option<(string, string)>)
    ensures r.Some? ==> ValidTo(r.value.0)
    ensures r.Some? ==> |r.value.1| < |s| && (r.value.1 == [] || !IsSpace(r.value.1[0]))
  {
    var t := s[Span(s, IsSpace)..];
    if |t| < 2 || t[0] != '|' || t[1] != '>' then None else ScanTo(t[2..])
  }

  /** The part of the format after the arrow: " %m[^ \n]\n". */
  function ScanTo(s: string): (r: Option<(string, string)>)
    ensures r.Some? ==> ValidTo(r.value.0)
    ensures r.Some? ==> |r.value.1| < |s| && (r.value.1 == [] || !IsSpace(r.value.1[0]))
  {
    var t := s[Span(s, IsSpace)..];
    var b := Span(t, InToField);
    if b == 0 then None
    else
      var u := t[b..];
      Some((t[..b], u[Span(u, IsSpace)..]))
  }

  /** `s` is white space `w1`, the field `to`, white space `w3`, then `rest`. */
  predicate ToLayout(s: string, to: string, rest: string, w1: string, w3: string) {
    AllSpace(w1) && AllSpace(w3) && s == w1 + to + w3 + rest
  }

  /** `s` is white space, the arrow, white space, the field `to`, white space, then `rest`. */
  predicate ArrowLayout(s: string, to: string, rest: string, w1: string, w2: string, w3: string) {
    AllSpace(w1) && AllSpace(w2) && AllSpace(w3) && s == w1 + "|>" + w2 + to + w3 + rest
  }

  /** `s` is the field `from`, white space, the arrow, white space, the field `to`, white space, then `rest`. */
  predicate MappingLayout(s: string, from: string, to: string, rest: string, w1: string, w2: string, w3: string) {
    AllSpace(w1) && AllSpace(w2) && AllSpace(w3) && s == from + w1 + "|>" + w2 + to + w3 + rest
  }

  /** What ScanTo takes is in `s`: only white space around the field it returns. */
  lemma ScanToSound(s: string)
    requires ScanTo(s).Some?
    ensures exists w1, w3 :: ToLayout(s, ScanTo(s).value.0, ScanTo(s).value.1, w1, w3)
  {
    var k := Span(s, IsSpace);
    var t := s[k..];
    var b := Span(t, InToField);
    var u := t[b..];
    SpaceSplit(s);
    SpaceSplit(u);
    SplitAt(t, b);
    ToJoin(s, s[..k], t, t[..b], u, u[..Span(u, IsSpace)], u[Span(u, IsSpace)..]);
  }

  lemma ToJoin(s: string, w1: string, t: string, to: string, u: string, w3: string, rest: string)
    requires AllSpace(w1) && AllSpace(w3)
    requires s == w1 + t && t == to + u && u == w3 + rest
    ensures ToLayout(s, to, rest, w1, w3)
  {
  }

  /** What ScanArrowAndTo takes is in `s`: the arrow and the field, with only white space around them. */
  lemma ScanArrowAndToSound(s: string)
    requires ScanArrowAndTo(s).Some?
    ensures exists w1, w2, w3 :: ArrowLayout(s, ScanArrowAndTo(s).value.0, ScanArrowAndTo(s).value.1, w1, w2, w3)
  {
    var k := Span(s, IsSpace);
    SpaceSplit(s);
    ArrowSound(s, s[..k], s[k..]);
  }

  /** The same, once the white space before the arrow is cut off. */
  lemma ArrowSound(s: string, w1: string, t: string)
    requires AllSpace(w1) && s == w1 + t
    requires |t| >= 2 && t[0] == '|' && t[1] == '>' && ScanTo(t[2..]).Some?
    ensures exists w1', w2, w3 :: ArrowLayout(s, ScanTo(t[2..]).value.0, ScanTo(t[2..]).value.1, w1', w2, w3)
  {
    var r := ScanTo(t[2..]).value;
    ScanToSound(t[2..]);
    var w2, w3 :| ToLayout(t[2..], r.0, r.1, w2, w3);
    ArrowJoin(s, w1, t, t[2..], r.0, r.1, w2, w3);
  }

  lemma ArrowJoin(s: string, w1: string, t: string, x: string, to: string, rest: string, w2: string, w3: string)
    requires AllSpace(w1) && s == w1 + t && |t| >= 2 && t[0] == '|' && t[1] == '>' && x == t[2..]
    requires ToLayout(x, to, rest, w2, w3)
    ensures ArrowLayout(s, to, rest, w1, w2, w3)
  {
    assert t == "|>" + x;
  }

  /**
   * What ScanMapping takes is in `s`, in order: the first field, the arrow
   * and the second field, with only white space between them and before
   * the rest of the text.
   */
  lemma ScanMappingSound(s: string)
    requires ScanMapping(s).Some?
    ensures var r := ScanMapping(s).value;
      exists w1, w2, w3 :: MappingLayout(s, r.0, r.1, r.2, w1, w2, w3)
  {
    var r := ScanMapping(s).value;
    var a := Span(s, InFromField);
    SplitAt(s, a);
    ScanArrowAndToSound(s[a..]);
    var w1, w2, w3 :| ArrowLayout(s[a..], r.1, r.2, w1, w2, w3);
    MappingJoin(s, r.0, s[a..], r.1, r.2, w1, w2, w3);
  }

  lemma MappingJoin(s: string, from: string, x: string, to: string, rest: string, w1: string, w2: string, w3: string)
    requires s == from + x && ArrowLayout(x, to, rest, w1, w2, w3)
    ensures MappingLayout(s, from, to, rest, w1, w2, w3)
  {
  }

  /** load_translations: the pairs read from the file, up to the first line that does not match. */
  function LoadMappings(s: string): seq<(string, string)>
    decreases |s|
  {
    match ScanMapping(s)
    case None => []
    case Some((from, to, rest)) => [(from, to)] + LoadMappings(rest)
  }

  /** A path save_translations can write as the first field and read back. */
  predicate SavableFrom(a: string) {
    ValidFrom(a) && !IsSpace(a[0])
  }

  /** A path save_translations can write as the second field and read back. */
  predicate SavableTo(b: string) {
    ValidTo(b) && !IsSpace(b[0])
  }

  /** Skipping white space in front of a character that is not white space skips exactly the white space. */
  lemma SkipOneSpace(c: char, s: string)
    requires IsSpace(c) && (s == [] || !IsSpace(s[0]))
    ensures ([c] + s)[Span([c] + s, IsSpace)..] == s
  {
    SpanOfConcat([c], s, IsSpace);
  }

  lemma ScanToLine(b: string, rest: string)
    requires SavableTo(b)
    requires rest == [] || !IsSpace(rest[0])
    ensures ScanTo(" " + b + "\n" + rest) == Some((b, rest))
  {
    SkipOneSpace(' ', b + "\n" + rest);
    assert " " + b + "\n" + rest == [' '] + (b + "\n" + rest);
    SpanOfConcat(b, "\n" + rest, InToField);
    assert b + "\n" + rest == b + ("\n" + rest);
    assert (b + ("\n" + rest))[..|b|] == b;
    assert (b + ("\n" + rest))[|b|..] == "\n" + rest;
    SkipOneSpace('\n', rest);
    assert "\n" + rest == ['\n'] + rest;
  }

  /** After " |>" the scan goes on with the part of the format after the arrow. */
  lemma ScanArrowThenTo(u: string)
    ensures ScanArrowAndTo(" |>" + u) == ScanTo(u)
  {
    var t := "|>" + u;
    assert " |>" + u == [' '] + t;
    SkipOneSpace(' ', t);
    assert t[2..] == u;
  }

  lemma ScanArrowAndToLine(b: string, rest: string)
    requires SavableTo(b)
    requires rest == [] || !IsSpace(rest[0])
    ensures ScanArrowAndTo(" |> " + b + "\n" + rest) == Some((b, rest))
  {
    assert " |> " + b + "\n" + rest == " |>" + (" " + b + "\n" + rest);
    ScanArrowThenTo(" " + b + "\n" + rest);
    ScanToLine(b, rest);
  }

  /** One written line reads back as its pair, leaving the next line unread. */
  lemma ScanMappingLine(a: string, b: string, rest: string)
    requires SavableFrom(a) && SavableTo(b)
    requires rest == [] || !IsSpace(rest[0])
    ensures ScanMapping(MappingLine(a, b) + rest) == Some((a, b, rest))
  {
    var s := MappingLine(a, b) + rest;
    var afterA := " |> " + b + "\n" + rest;
    assert s == a + afterA;
    SpanOfConcat(a, afterA, InFromField);
    assert s[|a|..] == afterA;
    assert s[..|a|] == a;
    ScanArrowAndToLine(b, rest);
  }

  /** Reading a text that starts with a written line yields its pair, then reads on after it. */
  lemma LoadMappingLine(pair: (string, string), next: string, s: string)
    requires SavableFrom(pair.0) && SavableTo(pair.1)
    requires next == [] || !IsSpace(next[0])
    requires s == MappingLine(pair.0, pair.1) + next
    ensures LoadMappings(s) == [pair] + LoadMappings(next)
  {
    ScanMappingLine(pair.0, pair.1, next);
  }

  /** A saved text starts with the first saved path, so never with white space. */
  lemma {:induction false} SavedTextStart(pairs: seq<(string, string)>, more: string)
    requires forall i :: 0 <= i < |pairs| ==> SavableFrom(pairs[i].0) && SavableTo(pairs[i].1)
    requires more == [] || !IsSpace(more[0])
    ensures var t := MappingsText(pairs) + more; t == [] || !IsSpace(t[0])
  {
    if pairs != [] {
      var t := MappingsText(pairs) + more;
      assert t == pairs[0].0 + (" |> " + pairs[0].1 + "\n" + MappingsText(pairs[1..]) + more);
      assert t[0] == pairs[0].0[0];
    }
  }

  /** One induction step of LoadAfterSaved: the first written line, then the rest by hypothesis. */
  lemma LoadAfterSavedStep(pairs: seq<(string, string)>, more: string)
    requires pairs != []
    requires SavableFrom(pairs[0].0) && SavableTo(pairs[0].1)
    requires var t := MappingsText(pairs[1..]) + more; t == [] || !IsSpace(t[0])
    requires LoadMappings(MappingsText(pairs[1..]) + more) == pairs[1..] + LoadMappings(more)
    ensures LoadMappings(MappingsText(pairs) + more) == pairs + LoadMappings(more)
  {
    LoadFirstLine(pairs, more);
    ConsAppend(pairs, LoadMappings(more));
  }

  /** Reading a saved text yields the first saved pair, then reads on from the second line. */
  lemma LoadFirstLine(pairs: seq<(string, string)>, more: string)
    requires pairs != []
    requires SavableFrom(pairs[0].0) && SavableTo(pairs[0].1)
    requires var t := MappingsText(pairs[1..]) + more; t == [] || !IsSpace(t[0])
    ensures LoadMappings(MappingsText(pairs) + more) == [pairs[0]] + LoadMappings(MappingsText(pairs[1..]) + more)
  {
    var next := MappingsText(pairs[1..]) + more;
    assert MappingsText(pairs) + more == MappingLine(pairs[0].0, pairs[0].1) + next;
    LoadMappingLine(pairs[0], next, MappingsText(pairs) + more);
  }

  lemma ConsAppend<T>(xs: seq<T>, ys: seq<T>)
    requires xs != []
    ensures [xs[0]] + (xs[1..] + ys) == xs + ys
  {
  }

  /**
   * Reading a saved file gives back the saved pairs, then whatever the text
   * after them reads as: reading stops at the first line that does not match.
   */
  lemma {:induction false} LoadAfterSaved(pairs: seq<(string, string)>, more: string)
    requires forall i :: 0 <= i < |pairs| ==> SavableFrom(pairs[i].0) && SavableTo(pairs[i].1)
    requires more == [] || !IsSpace(more[0])
    ensures LoadMappings(MappingsText(pairs) + more) == pairs + LoadMappings(more)
  {
    if pairs == [] {
      assert MappingsText(pairs) + more == more;
    } else {
      SavedTextStart(pairs[1..], more);
      LoadAfterSaved(pairs[1..], more);
      LoadAfterSavedStep(pairs, more);
    }
  }

  /** What save_translations writes, load_translations reads back. */
  lemma LoadSavedMappings(pairs: seq<(string, string)>)
    requires forall i :: 0 <= i < |pairs| ==> SavableFrom(pairs[i].0) && SavableTo(pairs[i].1)
    ensures LoadMappings(MappingsText(pairs)) == pairs
  {
    var text := MappingsText(pairs);
    assert text + [] == text;
    LoadAfterSaved(pairs, []);
  }

  /** A file name as `%m[^\r\n]` reads it: at least one character, no line break. */
  predicate ValidDropPath(f: string) {
    0 < |f| && forall i :: 0 <= i < |f| ==> NotLineBreak(f[i])
  }

  /** What the scan set `[^\r\n]` accepts. */
  predicate NotLineBreak(c: char) {
    c != '\r' && c != '\n'
  }

  /**
   * sscanf(text, "file://%m[^\r\n]\n", &file): the count it returns (1,
   * 0 on a mismatch, or EOF = -1 when the text ends before the scan set is
   * reached or at it) and the file name it stores.
   */
  function ScanDrop(text: string): (r: (int, Option<string>))
    ensures r.0 == -1 || r.0 == 0 || r.0 == 1
    ensures r.0 == 1 <==> r.1.Some?
    ensures r.1.Some? ==> ValidDropPath(r.1.value) && "file://" + r.1.value <= text
  {
    if |text| < 7 || text[..7] != "file://" then
      if text <= "file://" then (-1, None) else (0, None)
    else
      var rest := text[7..];
      if rest == [] then (-1, None)
      else
        var k := Span(rest, NotLineBreak);
        if k == 0 then (0, None)
        else
          assert text[..7 + k] == "file://" + rest[..k];
          (1, Some(rest[..k]))
  }

  /** The test in handle(FL_PASTE) as written: `if ( ! sscanf( ... ) )` rejects the drop only when sscanf returns 0. */
  predicate AcceptsDropAsWritten(text: string) {
    ScanDrop(text).0 != 0
  }

  /** An empty drop passes that test although sscanf stored no file name (it returned EOF). */
  lemma EmptyDropAcceptedAsWritten()
    ensures AcceptsDropAsWritten("") && ScanDrop("").1 == None
    ensures AcceptsDropAsWritten("file://") && ScanDrop("file://").1 == None
  {
  }

  /** The intended test: the drop names a file exactly when sscanf converted one (returned 1). */
  function DroppedFile(text: string): (r: Option<string>)
    ensures r == ScanDrop(text).1
    ensures r.Some? ==> ValidDropPath(r.value) && "file://" + r.value <= text
  {
    if ScanDrop(text).0 == 1 then ScanDrop(text).1 else None
  }

  /** A `file://` URL names the path up to the end of its line. */
  lemma DroppedFileOfUrl(path: string, tail: string)
    requires ValidDropPath(path)
    requires tail == [] || tail[0] == '\r' || tail[0] == '\n'
    ensures DroppedFile("file://" + path + tail) == Some(path)
  {
    var text := "file://" + path + tail;
    assert text[..7] == "file://";
    assert text[7..] == path + tail;
    SpanOfConcat(path, tail, NotLineBreak);
    assert (path + tail)[..|path|] == path;
  }
}
