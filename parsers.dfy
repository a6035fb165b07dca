/**
 * The three line-oriented input parsers of the bot: proxy lines
 * `host:port:login:password`, account lines `email:password`, and account
 * lines with a display name `email:password:name`.  Each reads the text line
 * by line, skips blank lines, `#` comments and malformed lines, and keeps the
 * accepted entries in input order.
 */
module Parsers {
  import opened Wrappers
  import opened Strings

  datatype ProxyEntry = ProxyEntry(host: string, port: nat, login: string, password: string)

  datatype Credential = Credential(email: string, password: string)

  datatype NamedCredential = NamedCredential(email: string, password: string, name: string)

  // ---------------------------------------------------------------------
  // What every parser does with the lines: parse each, keep the successes
  // ---------------------------------------------------------------------

  /** The values `parse` accepts among `lines`, in order. */
  function Collect<T>(lines: seq<string>, parse: string -> Option<T>): (r: seq<T>)
    ensures |r| <= |lines|
  {
    if lines == [] then []
    else Collect(lines[..|lines| - 1], parse) + AsSeq(parse(lines[|lines| - 1]))
  }

  /** The lines a formatter writes for a list of values. */
  function Render<T>(vs: seq<T>, format: T -> string): (lines: seq<string>)
    ensures |lines| == |vs|
    ensures forall k :: 0 <= k < |vs| ==> lines[k] == format(vs[k])
  {
    seq(|vs|, k requires 0 <= k < |vs| => format(vs[k]))
  }

  /** Collecting is compositional: the entries of `a + b` are those of `a`, then those of `b`. */
  lemma {:induction false} CollectAppend<T>(a: seq<string>, b: seq<string>, parse: string -> Option<T>)
    ensures Collect(a + b, parse) == Collect(a, parse) + Collect(b, parse)
    decreases |b|
  {
    if b == [] {
      assert a + b == a;
    } else {
      var b' := b[..|b| - 1];
      assert (a + b)[..|a + b| - 1] == a + b';
      assert (a + b)[|a + b| - 1] == b[|b| - 1];
      CollectAppend(a, b', parse);
    }
  }

  /** One more line adds that line's entry, if any, at the end. */
  lemma CollectStep<T>(lines: seq<string>, i: nat, parse: string -> Option<T>)
    requires i < |lines|
    ensures Collect(lines[..i + 1], parse) == Collect(lines[..i], parse) + AsSeq(parse(lines[i]))
  {
    assert lines[..i + 1][..i] == lines[..i];
  }

  /** The loop the three parsers share: parse each line in turn and append what it accepts. */
  method CollectLines<T>(lines: seq<string>, parse: string -> Option<T>) returns (out: seq<T>)
    ensures out == Collect(lines, parse)
  {
    out := [];
    var i := 0;
    while i < |lines|
      invariant 0 <= i <= |lines|
      invariant out == Collect(lines[..i], parse)
    {
      CollectStep(lines, i, parse);
      var entry := parse(lines[i]);
      if entry.Some? {
        out := out + [entry.value];
      }
      i := i + 1;
    }
    assert lines[..i] == lines;
  }

  /** Lines that each parse back to the value they were written from collect back to the list of values. */
  lemma {:induction false} CollectRendered<T>(vs: seq<T>, format: T -> string, parse: string -> Option<T>)
    requires forall k :: 0 <= k < |vs| ==> parse(format(vs[k])) == Some(vs[k])
    ensures Collect(Render(vs, format), parse) == vs
  {
    if vs != [] {
      var n := |vs|;
      assert Render(vs, format)[..n - 1] == Render(vs[..n - 1], format);
      CollectRendered(vs[..n - 1], format, parse);
    }
  }

  /** A line that is blank or a `#` comment once stripped. */
  predicate Skipped(ln: string) {
    ln == [] || StartsWith(ln, '#')
  }

  // ---------------------------------------------------------------------
  // host:port:login:password
  // ---------------------------------------------------------------------

  /** One proxy line; the password is everything after the third colon. */
  function ParseProxyLine(raw: string): Option<ProxyEntry> {
    var ln := Strip(raw);
    if Skipped(ln) then None
    else
      var parts := Split(ln, ':');
      if |parts| < 4 then None
      else
        var host := Strip(parts[0]);
        var portText := Strip(parts[1]);
        var login := Strip(parts[2]);
        var password := Strip(Join(parts[3..], ':'));
        if host == [] || !IsDigits(portText) || login == [] || password == [] then None
        else Some(ProxyEntry(host, DigitsValue(portText), login, password))
  }

  /**
   * Which proxy lines are kept, and what is read from them: a line is kept
   * exactly when, once stripped, it is no comment, has at least four
   * fields, and its stripped host, login and password are non-empty and
   * its stripped port all digits; the entry then holds those stripped
   * fields, the port as a number, the password being everything after the
   * third colon.
   */
  lemma ProxyLineAccepted(raw: string)
    ensures var ln := Strip(raw); var parts := Split(ln, ':');
            ParseProxyLine(raw).Some? <==>
              !Skipped(ln) && |parts| >= 4 && Strip(parts[0]) != [] && IsDigits(Strip(parts[1])) &&
              Strip(parts[2]) != [] && Strip(Join(parts[3..], ':')) != []
    ensures var ln := Strip(raw); var parts := Split(ln, ':');
            ParseProxyLine(raw).Some? ==>
              |parts| >= 4 && IsDigits(Strip(parts[1])) &&
              ParseProxyLine(raw).value ==
                ProxyEntry(Strip(parts[0]), DigitsValue(Strip(parts[1])), Strip(parts[2]), Strip(Join(parts[3..], ':')))
    ensures ParseProxyLine(raw).Some? ==> var e := ParseProxyLine(raw).value;
              e.host != [] && Stripped(e.host) && ':' !in e.host &&
              e.login != [] && Stripped(e.login) && ':' !in e.login &&
              e.password != [] && Stripped(e.password)
  {
    var ln := Strip(raw);
    if !Skipped(ln) {
      var parts := Split(ln, ':');
      if |parts| >= 4 {
        StripInfix(parts[0]);
        StripInfix(parts[2]);
      }
    }
  }

  /** The entries of a block of proxy lines. */
  function ProxyEntries(text: string): seq<ProxyEntry> {
    Collect(SplitLines(text), ParseProxyLine)
  }

  /** Reads a block of proxy lines, one entry per accepted line. */
  method ParseProxyLines(text: string) returns (out: seq<ProxyEntry>)
    ensures out == ProxyEntries(text)
    ensures |out| <= |SplitLines(text)|
  {
    out := CollectLines(SplitLines(text), ParseProxyLine);
  }

  /** A field that survives being written between colons on one line. */
  predicate PlainField(s: string) {
    s != [] && Stripped(s) && NoLineBreak(s)
  }

  /** A proxy entry that can be written as a line and read back. */
  predicate WellFormedProxy(e: ProxyEntry) {
    PlainField(e.host) && ':' !in e.host && !StartsWith(e.host, '#') &&
    PlainField(e.login) && ':' !in e.login &&
    PlainField(e.password)
  }

  function FormatProxy(e: ProxyEntry): string {
    e.host + [':'] + (NatToString(e.port) + [':'] + (e.login + [':'] + e.password))
  }

  /** The colon-separated fields of a formatted proxy line. */
  lemma ProxyLineFields(e: ProxyEntry)
    requires ':' !in e.host && ':' !in e.login
    ensures Split(FormatProxy(e), ':') == [e.host] + ([NatToString(e.port)] + ([e.login] + Split(e.password, ':')))
  {
    var portText := NatToString(e.port);
    DigitsHaveNoColon(portText);
    SplitCons(e.login, ':', e.password);
    SplitCons(portText, ':', e.login + [':'] + e.password);
    SplitCons(e.host, ':', portText + [':'] + (e.login + [':'] + e.password));
  }

  /** A formatted proxy line is not skipped and needs no stripping. */
  lemma ProxyLineStripped(e: ProxyEntry)
    requires WellFormedProxy(e)
    ensures Strip(FormatProxy(e)) == FormatProxy(e) && !Skipped(FormatProxy(e))
  {
    var ln := FormatProxy(e);
    assert ln[0] == e.host[0] && ln[|ln| - 1] == e.password[|e.password| - 1];
    StripOfStripped(ln);
  }

  /** How a stripped, non-comment line with at least four fields is read. */
  lemma ParseProxyLineOf(ln: string, host: string, portText: string, login: string, rest: string)
    requires Strip(ln) == ln && !Skipped(ln)
    requires Split(ln, ':') == [host] + ([portText] + ([login] + Split(rest, ':')))
    requires PlainField(host) && IsDigits(portText) && PlainField(login) && PlainField(rest)
    ensures ParseProxyLine(ln) == Some(ProxyEntry(host, DigitsValue(portText), login, rest))
  {
    var parts := Split(ln, ':');
    ThreeThenRest(host, portText, login, Split(rest, ':'));
    JoinSplit(rest, ':');
    StripOfStripped(host);
    StripOfStripped(login);
    StripOfStripped(rest);
    DigitsAreStripped(portText);
  }

  /** Round trip: a well-formed entry written as a line parses back to itself, colons in the password included. */
  lemma ProxyLineRoundTrip(e: ProxyEntry)
    requires WellFormedProxy(e)
    ensures ParseProxyLine(FormatProxy(e)) == Some(e)
  {
    ProxyLineStripped(e);
    ProxyLineFields(e);
    ParseProxyLineOf(FormatProxy(e), e.host, NatToString(e.port), e.login, e.password);
    NatToStringValue(e.port);
  }

  lemma ProxyLineNoBreak(e: ProxyEntry)
    requires WellFormedProxy(e)
    ensures NoLineBreak(FormatProxy(e)) && FormatProxy(e) != []
  {
    DigitsHaveNoLineBreak(NatToString(e.port));
  }

  /** Round trip for a whole block: well-formed entries written one per line parse back to the same list. */
  lemma ProxyBlockRoundTrip(es: seq<ProxyEntry>)
    requires forall k :: 0 <= k < |es| ==> WellFormedProxy(es[k])
    ensures ProxyEntries(Join(Render(es, FormatProxy), '\n')) == es
  {
    var lines := Render(es, FormatProxy);
    assert SplitLines(Join(lines, '\n')) == lines by {
      forall k | 0 <= k < |lines| ensures NoLineBreak(lines[k]) && lines[k] != [] {
        ProxyLineNoBreak(es[k]);
      }
      SplitLinesJoin(lines);
    }
    assert Collect(lines, ParseProxyLine) == es by {
      forall k | 0 <= k < |es| ensures ParseProxyLine(FormatProxy(es[k])) == Some(es[k]) {
        ProxyLineRoundTrip(es[k]);
      }
      CollectRendered(es, FormatProxy, ParseProxyLine);
    }
  }

  // ---------------------------------------------------------------------
  // email:password
  // ---------------------------------------------------------------------

  /** One account line, split at the first colon only, so the password may hold colons. */
  function ParseCredentialLine(raw: string): Option<Credential> {
    var ln := Strip(raw);
    if Skipped(ln) || ':' !in ln then None
    else
      SplitOnceAt(ln, ':');
      var parts := SplitN(ln, ':', 1);
      var email := Strip(parts[0]);
      var password := Strip(parts[1]);
      if email != [] && password != [] then Some(Credential(email, password))
      else None
  }

  /**
   * Which account lines are kept, and what is read from them: a line is
   * kept exactly when, once stripped, it is no comment, holds a colon, and
   * the stripped text before and after its first colon is non-empty; the
   * credential is then those two stripped pieces.
   */
  lemma CredentialLineAccepted(raw: string)
    ensures var ln := Strip(raw); ':' in ln ==> |SplitN(ln, ':', 1)| == 2
    ensures var ln := Strip(raw); var p := SplitN(ln, ':', 1);
            ParseCredentialLine(raw).Some? <==>
              !Skipped(ln) && ':' in ln && |p| == 2 && Strip(p[0]) != [] && Strip(p[1]) != []
    ensures var ln := Strip(raw); var p := SplitN(ln, ':', 1);
            ParseCredentialLine(raw).Some? ==>
              |p| == 2 && ParseCredentialLine(raw).value == Credential(Strip(p[0]), Strip(p[1]))
    ensures ParseCredentialLine(raw).Some? ==> var c := ParseCredentialLine(raw).value;
              c.email != [] && Stripped(c.email) && ':' !in c.email &&
              c.password != [] && Stripped(c.password)
  {
    var ln := Strip(raw);
    if ':' in ln {
      SplitOnceAt(ln, ':');
    }
    if !Skipped(ln) && ':' in ln {
      StripInfix(SplitN(ln, ':', 1)[0]);
    }
  }

  function Credentials(text: string): seq<Credential> {
    Collect(SplitLines(text), ParseCredentialLine)
  }

  /** Reads a block of `email:password` lines. */
  method ParseLinesOne(text: string) returns (rows: seq<Credential>)
    ensures rows == Credentials(text)
    ensures |rows| <= |SplitLines(text)|
  {
    rows := CollectLines(SplitLines(text), ParseCredentialLine);
  }

  predicate WellFormedCredential(c: Credential) {
    PlainField(c.email) && ':' !in c.email && !StartsWith(c.email, '#') &&
    PlainField(c.password)
  }

  function FormatCredential(c: Credential): string {
    c.email + [':'] + c.password
  }

  lemma CredentialLineShape(c: Credential)
    requires WellFormedCredential(c)
    ensures Strip(FormatCredential(c)) == FormatCredential(c) && !Skipped(FormatCredential(c))
    ensures ':' in FormatCredential(c) && NoLineBreak(FormatCredential(c))
    ensures SplitN(FormatCredential(c), ':', 1) == [c.email] + [c.password]
  {
    var ln := FormatCredential(c);
    assert ln[0] == c.email[0] && ln[|ln| - 1] == c.password[|c.password| - 1];
    StripOfStripped(ln);
    assert ln[|c.email|] == ':';
    NoLineBreakConcat(c.email, [':']);
    NoLineBreakConcat(c.email + [':'], c.password);
    SplitNCons(c.email, ':', c.password, 1);
  }

  /** Round trip: `email:password` reads back as written, colons in the password included. */
  lemma CredentialLineRoundTrip(c: Credential)
    requires WellFormedCredential(c)
    ensures ParseCredentialLine(FormatCredential(c)) == Some(c)
  {
    CredentialLineShape(c);
    StripOfStripped(c.email);
    StripOfStripped(c.password);
  }

  lemma CredentialBlockRoundTrip(cs: seq<Credential>)
    requires forall k :: 0 <= k < |cs| ==> WellFormedCredential(cs[k])
    ensures Credentials(Join(Render(cs, FormatCredential), '\n')) == cs
  {
    var lines := Render(cs, FormatCredential);
    assert SplitLines(Join(lines, '\n')) == lines by {
      forall k | 0 <= k < |lines| ensures NoLineBreak(lines[k]) && lines[k] != [] {
        CredentialLineShape(cs[k]);
      }
      SplitLinesJoin(lines);
    }
    assert Collect(lines, ParseCredentialLine) == cs by {
      forall k | 0 <= k < |cs| ensures ParseCredentialLine(FormatCredential(cs[k])) == Some(cs[k]) {
        CredentialLineRoundTrip(cs[k]);
      }
      CollectRendered(cs, FormatCredential, ParseCredentialLine);
    }
  }

  // ---------------------------------------------------------------------
  // email:password:name
  // ---------------------------------------------------------------------

  /** One named account line: exactly three fields from a split limited to two; the name may be empty. */
  function ParseNamedLine(raw: string): Option<NamedCredential> {
    var ln := Strip(raw);
    if Skipped(ln) then None
    else
      var parts := SplitN(ln, ':', 2);
      if |parts| != 3 then None
      else
        var email := Strip(parts[0]);
        var password := Strip(parts[1]);
        var name := Strip(parts[2]);
        if email != [] && password != [] then Some(NamedCredential(email, password, name))
        else None
  }

  /**
   * Which named account lines are kept, and what is read from them: a line
   * is kept exactly when, once stripped, it is no comment, a split at its
   * first two colons gives three fields, and the stripped email and
   * password are non-empty; the entry is then the three stripped fields,
   * the name possibly empty.
   */
  lemma NamedLineAccepted(raw: string)
    ensures var ln := Strip(raw); var p := SplitN(ln, ':', 2);
            ParseNamedLine(raw).Some? <==> !Skipped(ln) && |p| == 3 && Strip(p[0]) != [] && Strip(p[1]) != []
    ensures var ln := Strip(raw); var p := SplitN(ln, ':', 2);
            ParseNamedLine(raw).Some? ==>
              |p| == 3 && ParseNamedLine(raw).value == NamedCredential(Strip(p[0]), Strip(p[1]), Strip(p[2]))
    ensures ParseNamedLine(raw).Some? ==> var c := ParseNamedLine(raw).value;
              c.email != [] && Stripped(c.email) && ':' !in c.email &&
              c.password != [] && Stripped(c.password) && ':' !in c.password &&
              Stripped(c.name)
  {
    var ln := Strip(raw);
    if !Skipped(ln) {
      var parts := SplitN(ln, ':', 2);
      if |parts| == 3 {
        StripInfix(parts[0]);
        StripInfix(parts[1]);
      }
    }
  }

  function NamedCredentials(text: string): seq<NamedCredential> {
    Collect(SplitLines(text), ParseNamedLine)
  }

  /** Reads a block of `email:password:name` lines. */
  method ParseLinesMany(text: string) returns (rows: seq<NamedCredential>)
    ensures rows == NamedCredentials(text)
    ensures |rows| <= |SplitLines(text)|
  {
    rows := CollectLines(SplitLines(text), ParseNamedLine);
  }

  predicate WellFormedNamed(c: NamedCredential) {
    PlainField(c.email) && ':' !in c.email && !StartsWith(c.email, '#') &&
    PlainField(c.password) && ':' !in c.password &&
    Stripped(c.name) && NoLineBreak(c.name)
  }

  function FormatNamed(c: NamedCredential): string {
    c.email + [':'] + (c.password + [':'] + c.name)
  }

  lemma NamedLineShape(c: NamedCredential)
    requires WellFormedNamed(c)
    ensures Strip(FormatNamed(c)) == FormatNamed(c) && !Skipped(FormatNamed(c))
    ensures NoLineBreak(FormatNamed(c)) && FormatNamed(c) != []
  {
    var ln := FormatNamed(c);
    assert ln[0] == c.email[0];
    assert ln[|ln| - 1] == if c.name == [] then ':' else c.name[|c.name| - 1];
    StripOfStripped(ln);
  }

  lemma NamedLineFields(c: NamedCredential)
    requires ':' !in c.email && ':' !in c.password
    ensures SplitN(FormatNamed(c), ':', 2) == [c.email] + ([c.password] + [c.name])
  {
    SplitNCons(c.password, ':', c.name, 1);
    SplitNCons(c.email, ':', c.password + [':'] + c.name, 2);
  }

  /** How a stripped, non-comment line with three fields is read. */
  lemma ParseNamedLineOf(ln: string, email: string, password: string, name: string)
    requires Strip(ln) == ln && !Skipped(ln)
    requires SplitN(ln, ':', 2) == [email] + ([password] + [name])
    requires PlainField(email) && PlainField(password) && Stripped(name)
    ensures ParseNamedLine(ln) == Some(NamedCredential(email, password, name))
  {
    var parts := SplitN(ln, ':', 2);
    assert |parts| == 3 && parts[0] == email && parts[1] == password && parts[2] == name;
    StripOfStripped(email);
    StripOfStripped(password);
    StripOfStripped(name);
  }

  /** Round trip: `email:password:name` reads back as written, an empty name and colons in the name included. */
  lemma NamedLineRoundTrip(c: NamedCredential)
    requires WellFormedNamed(c)
    ensures ParseNamedLine(FormatNamed(c)) == Some(c)
  {
    NamedLineShape(c);
    NamedLineFields(c);
    ParseNamedLineOf(FormatNamed(c), c.email, c.password, c.name);
  }

  lemma NamedBlockRoundTrip(cs: seq<NamedCredential>)
    requires forall k :: 0 <= k < |cs| ==> WellFormedNamed(cs[k])
    ensures NamedCredentials(Join(Render(cs, FormatNamed), '\n')) == cs
  {
    var lines := Render(cs, FormatNamed);
    assert SplitLines(Join(lines, '\n')) == lines by {
      forall k | 0 <= k < |lines| ensures NoLineBreak(lines[k]) && lines[k] != [] {
        NamedLineShape(cs[k]);
      }
      SplitLinesJoin(lines);
    }
    assert Collect(lines, ParseNamedLine) == cs by {
      forall k | 0 <= k < |cs| ensures ParseNamedLine(FormatNamed(cs[k])) == Some(cs[k]) {
        NamedLineRoundTrip(cs[k]);
      }
      CollectRendered(cs, FormatNamed, ParseNamedLine);
    }
  }

  // ---------------------------------------------------------------------
  // Helpers about stripped fields
  // ---------------------------------------------------------------------

  /** Stripping removes characters from the ends only, so it never adds a colon. */
  lemma StripInfix(s: string)
    ensures ':' in Strip(s) ==> ':' in s
  {
    var l := StripLeft(s);
    var r := StripRight(l);
    if ':' in r {
      var j :| 0 <= j < |r| && r[j] == ':';
      assert l[j] == ':';
      assert s[|s| - |l| + j] == ':';
    }
  }

  lemma ThreeThenRest<T>(a: T, b: T, c: T, t: seq<T>)
    ensures var s := [a] + ([b] + ([c] + t));
              |s| == |t| + 3 && s[0] == a && s[1] == b && s[2] == c && s[3..] == t
  {
    var s := [a] + ([b] + ([c] + t));
    assert s[3..] == t;
  }

  lemma DigitsHaveNoColon(s: string)
    requires IsDigits(s)
    ensures ':' !in s
  {
    assert forall j :: 0 <= j < |s| ==> s[j] != ':';
  }

  lemma DigitsHaveNoLineBreak(s: string)
    requires IsDigits(s)
    ensures NoLineBreak(s)
  {
  }

  lemma DigitsAreStripped(s: string)
    requires IsDigits(s)
    ensures Strip(s) == s
  {
    StripOfStripped(s);
  }
}
