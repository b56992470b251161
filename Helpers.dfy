/**
 * The small string helpers of the plugin: the scrubbing of the backURL
 * parameter, isHTMLContent(), the subject/body split of sendMail(), and
 * the choice removeRequired() makes of the required-field warnings to drop.
 */
module Helpers {
  import opened PhpStrings
  import opened PhpValues
  import Validation

  // --------------------------------------------------------------- backURL

  /** The XSS test of init(): a quote, an angle bracket, "javascript:" or
      "vbscript:" (any case), or "fromcharcode" (any case). */
  predicate Unsafe(u: string) {
    Contains(u, "\"") || Contains(u, "'")
    || Contains(ToLower(u), "javascript:") || Contains(ToLower(u), "vbscript:")
    || Contains(ToLower(u), "fromcharcode")
    || Contains(u, "<") || Contains(u, ">")
  }

  /** The number of letters s starts with. */
  function Letters(s: string): (n: nat)
    ensures n <= |s|
    ensures forall i :: 0 <= i < n ==> IsLetter(s[i])
    ensures n < |s| ==> !IsLetter(s[n])
  {
    if |s| > 0 && IsLetter(s[0]) then 1 + Letters(s[1..]) else 0
  }

  /** The number of characters before the first '/'. */
  function NonSlash(s: string): (n: nat)
    ensures n <= |s|
    ensures forall i :: 0 <= i < n ==> s[i] != '/'
    ensures n < |s| ==> s[n] == '/'
  {
    if |s| > 0 && s[0] != '/' then 1 + NonSlash(s[1..]) else 0
  }

  /** The pattern [A-Za-z]+://[^/]+ matches at the start of s. */
  predicate HostAt(s: string) {
    var n := Letters(s);
    n > 0 && n + 3 < |s| && s[n..n + 3] == "://" && s[n + 3] != '/'
  }

  /** The length of that match: greedy on both runs. */
  function HostLen(s: string): (l: nat)
    requires HostAt(s)
    ensures 0 < l <= |s|
  {
    var n := Letters(s);
    n + 3 + NonSlash(s[n + 3..])
  }

  /** preg_replace('|[A-Za-z]+://[^/]+|', '', $s): every match, scanning
      left to right, removed in one pass. */
  function StripHosts(s: string): (r: string)
    ensures |r| <= |s| && (|r| == |s| ==> r == s)
    ensures forall c :: c in r ==> c in s
    decreases |s|
  {
    if |s| == 0 then ""
    else if HostAt(s) then StripHosts(s[HostLen(s)..])
    else
      var rest := StripHosts(s[1..]);
      assert s == [s[0]] + s[1..];
      [s[0]] + rest
  }

  /** $this->backURL as init() leaves it. */
  function ScrubBackUrl(u: string): (r: string)
    ensures Unsafe(u) ==> r == ""
    ensures forall c :: c in r ==> c in u
  {
    StripHosts(if Unsafe(u) then "" else u)
  }

  /** A scheme://host starts at position i. */
  predicate HostFrom(s: string, i: nat)
    requires i <= |s|
  {
    HostAt(s[i..])
  }

  /** No scheme://host is left anywhere. */
  predicate NoHost(s: string) {
    forall i :: 0 <= i <= |s| ==> !HostFrom(s, i)
  }

  /** A string the pass leaves alone has no host in it. */
  lemma {:induction false} UnchangedNoHost(s: string)
    requires StripHosts(s) == s
    ensures NoHost(s)
  {
    if |s| > 0 {
      assert !HostAt(s);
      assert s[0..] == s;
      assert [s[0]] + StripHosts(s[1..]) == s;
      assert StripHosts(s[1..]) == s[1..];
      UnchangedNoHost(s[1..]);
      forall i | 0 <= i <= |s| ensures !HostFrom(s, i) {
        if i > 0 {
          assert !HostFrom(s[1..], i - 1);
          assert s[i..] == s[1..][i - 1..];
        }
      }
    } else {
      assert !HostFrom(s, 0);
    }
  }

  /** The pass repeated until nothing changes. */
  function StripHostsFixed(s: string): (r: string)
    ensures NoHost(r)
    ensures forall c :: c in r ==> c in s
    decreases |s|
  {
    var t := StripHosts(s);
    if t == s then UnchangedNoHost(s); s else StripHostsFixed(t)
  }

  /** The scrub as intended: not only the first layer of hosts removed. */
  function ScrubBackUrlFixed(u: string): (r: string)
    ensures Unsafe(u) ==> r == ""
    ensures NoHost(r)
    ensures forall c :: c in r ==> c in u
  {
    StripHostsFixed(if Unsafe(u) then "" else u)
  }

  /** A character that is not contained as a one-character string does not
      occur. */
  lemma ContainsChar(u: string, c: char)
    requires !Contains(u, [c])
    ensures c !in u
  {
  }

  /** A string that contains a needle contains the needle's first
      character. */
  lemma {:induction false} ContainsFirstChar(h: string, n: string)
    requires |n| > 0 && Contains(h, n)
    ensures n[0] in h
    decreases |h|
  {
    if !StartsWith(h, n) {
      ContainsFirstChar(h[1..], n);
    }
  }

  /** A URL without quotes, angle brackets and the letters j, v and f (in
      either case) passes the XSS test. */
  lemma SafeWithout(u: string)
    requires forall i :: 0 <= i < |u| ==> u[i] !in "\"'<>jvfJVF"
    ensures !Unsafe(u)
  {
    var l := ToLower(u);
    forall n | n in ["\"", "'", "<", ">"] ensures !Contains(u, n) {
      if Contains(u, n) {
        ContainsFirstChar(u, n);
      }
    }
    forall n | n in ["javascript:", "vbscript:", "fromcharcode"] ensures !Contains(l, n) {
      if Contains(l, n) {
        ContainsFirstChar(l, n);
      }
    }
  }

  /** The steps of the pass over "h:a://b//e": no match at "h" ... */
  lemma ReformNoMatchAtStart(u: string)
    requires u == "h:a://b//e"
    ensures !HostAt(u) && !HostAt(u[1..])
  {
    assert Letters(u) == 1 && u[1..4][1] == 'a';
  }

  /** ... the match "a://b" at position 2 ... */
  lemma ReformMatch(u: string)
    requires u == "h:a://b//e"
    ensures HostAt(u[2..]) && HostLen(u[2..]) == 5
  {
    var u2 := u[2..];
    assert Letters(u2) == 1 && u2[1..4] == "://";
    assert NonSlash(u2[4..]) == 1;
  }

  /** ... and no match in the tail "//e", which is kept. */
  lemma ReformTail(t: string)
    requires t == "//e"
    ensures StripHosts(t) == t
  {
    assert Letters(t) == 0;
    assert Letters(t[1..]) == 0;
    assert t[1..][1..] == "e";
    assert StripHosts(t[1..][1..]) == "e";
  }

  /** What is left, "h://e", is a scheme followed by a host. */
  lemma ReformedHost(r: string)
    requires r == "h://e"
    ensures HostAt(r)
  {
    assert Letters(r) == 1 && r[1..4] == "://";
  }

  /** The pass turns "h:a://b//e" into "h://e". */
  lemma ReformResult(u: string)
    requires u == "h:a://b//e"
    ensures StripHosts(u) == "h://e"
  {
    ReformNoMatchAtStart(u);
    ReformMatch(u);
    assert u[2..][5..] == "//e";
    ReformTail(u[2..][5..]);
    assert StripHosts(u[2..]) == "//e";
    assert u[1..][1..] == u[2..];
    assert StripHosts(u[1..]) == [u[1]] + "//e";
    assert StripHosts(u) == [u[0]] + ([u[1]] + "//e");
  }

  /** The one pass re-forms a host: "h:a://b//e" passes the XSS test, its
      only match "a://b" is removed, and what is left, "h://e", is again a
      scheme followed by a host. */
  lemma BackUrlReformsHost(u: string)
    requires u == "h:a://b//e"
    ensures !Unsafe(u) && ScrubBackUrl(u) == "h://e" && HostAt(ScrubBackUrl(u))
  {
    SafeWithout(u);
    ReformResult(u);
    ReformedHost(StripHosts(u));
  }

  /** The scrubbed URL never holds a quote or an angle bracket. */
  lemma ScrubbedHasNoMarkup(u: string)
    ensures var r := ScrubBackUrl(u);
      '"' !in r && '\'' !in r && '<' !in r && '>' !in r
    ensures var r := ScrubBackUrlFixed(u);
      '"' !in r && '\'' !in r && '<' !in r && '>' !in r
  {
    if !Unsafe(u) {
      ContainsChar(u, '"');
      ContainsChar(u, '\'');
      ContainsChar(u, '<');
      ContainsChar(u, '>');
    }
  }

  // ----------------------------------------------------------- isHTMLContent

  /** isHTMLContent($c): after trim(), the first six characters read
      <html> and the last seven </html>, in any case. */
  predicate IsHtmlContent(c: string) {
    var t := Trim(c);
    ToLower(Prefix(t, 6)) + ToLower(Suffix(t, 7)) == "<html></html>"
  }

  /** Two strings joined equal two others joined, with first halves of one
      length: the halves are equal. */
  lemma ConcatHalves(a: string, b: string, x: string, y: string)
    requires a + b == x + y && |a| == |x|
    ensures a == x && b == y
  {
    assert a == (a + b)[..|a|] && x == (x + y)[..|x|];
    assert b == (a + b)[|a|..] && y == (x + y)[|x|..];
  }

  /** A text of 7 to 12 characters cannot both start with <html> and end
      with </html>: the two tags would overlap at position |t| - 7. */
  lemma NoOverlap(t: string)
    requires 7 <= |t| < 13
    ensures !(ToLower(t[..6]) == "<html>" && ToLower(t[|t| - 7..]) == "</html>")
  {
  }

  /** The two ends cannot overlap: the content is HTML exactly when its
      trimmed text is at least 13 characters long, starts with <html> and
      ends with </html>. */
  lemma IsHtmlContentIff(c: string)
    ensures IsHtmlContent(c) <==>
      var t := Trim(c);
      |t| >= 13 && ToLower(t[..6]) == "<html>" && ToLower(t[|t| - 7..]) == "</html>"
  {
    var t := Trim(c);
    var a := ToLower(Prefix(t, 6));
    var b := ToLower(Suffix(t, 7));
    var open, close := "<html>", "</html>";
    assert open + close == "<html></html>";
    if a + b == open + close {
      assert |a| == 6 by {
        assert |a| + |b| == 13;
      }
      ConcatHalves(a, b, open, close);
      assert t[..6] == Prefix(t, 6) && t[|t| - 7..] == Suffix(t, 7);
      if |t| < 13 {
        NoOverlap(t);
      }
    }
    if |t| >= 13 && ToLower(t[..6]) == open && ToLower(t[|t| - 7..]) == close {
      assert a + b == open + close;
    }
  }

  // --------------------------------------------------------------- sendMail

  /** The case-insensitive start of s reads p. */
  predicate StartsWithCI(s: string, p: string) {
    |p| <= |s| && ToLower(s[..|p|]) == p
  }

  /** The length of a <title> or </title> delimiter at the start of s, or 0. */
  function TagLen(s: string): (l: nat)
    ensures l == 0 || l == 7 || l == 8
    ensures l <= |s|
  {
    if StartsWithCI(s, "<title>") then 7 else if StartsWithCI(s, "</title>") then 8 else 0
  }

  /** A delimiter found in a prefix of s is found in s too. */
  lemma TagLenPrefix(s: string, n: nat)
    requires n <= |s|
    ensures TagLen(s[..n]) > 0 ==> TagLen(s) == TagLen(s[..n])
  {
    if StartsWithCI(s[..n], "<title>") {
      assert s[..n][..7] == s[..7];
    } else if StartsWithCI(s[..n], "</title>") {
      assert s[..n][..8] == s[..8];
      assert !StartsWithCI(s, "<title>") by {
        assert s[..7] == s[..n][..7];
      }
    }
  }

  /** The first delimiter of preg_split('/<title>|<\/title>/i', ...): its
      position and length. */
  function NextTag(s: string): (r: Option<(nat, nat)>)
    ensures r.Some? ==> r.value.0 + r.value.1 <= |s| && r.value.1 > 0 && TagLen(s[r.value.0..]) == r.value.1
    ensures r.Some? ==> forall j :: 0 <= j < r.value.0 ==> TagLen(s[j..]) == 0
    ensures r.None? ==> forall j :: 0 <= j < |s| ==> TagLen(s[j..]) == 0
    decreases |s|
  {
    if |s| == 0 then None
    else if TagLen(s) > 0 then Some((0, TagLen(s)))
    else
      TailSuffixes(s);
      match NextTag(s[1..])
      case Some((i, l)) => Some((i + 1, l))
      case None => None
  }

  /** The suffixes of s from 1 on are the suffixes of its tail. */
  lemma TailSuffixes(s: string)
    requires |s| > 0
    ensures forall j :: 1 <= j <= |s| ==> s[j..] == s[1..][j - 1..]
  {
  }

  /** No delimiter starts anywhere in s. */
  predicate NoTag(s: string) {
    forall j :: 0 <= j < |s| ==> TagLen(s[j..]) == 0
  }

  /** $parts[1] of preg_split('/<title>|<\/title>/i', $content, 3): the text
      between the first and the second delimiter (or the end); null, read as
      "", when there is no delimiter. */
  function TitleText(content: string): (t: string)
    ensures NoTag(t)
  {
    match NextTag(content)
    case None => ""
    case Some((i, l)) =>
      var rest := content[i + l..];
      match NextTag(rest)
      case None => rest
      case Some((k, _)) =>
        PrefixNoTag(rest, k);
        rest[..k]
  }

  /** A prefix that no delimiter starts in holds no delimiter. */
  lemma PrefixNoTag(s: string, k: nat)
    requires k <= |s|
    requires forall j :: 0 <= j < k ==> TagLen(s[j..]) == 0
    ensures NoTag(s[..k])
  {
    var t := s[..k];
    forall j | 0 <= j < |t| ensures TagLen(t[j..]) == 0 {
      assert t[j..] == s[j..][..k - j];
      TagLenPrefix(s[j..], k - j);
    }
  }

  /** Neither does any slice of a text without delimiters. */
  lemma SliceNoTag(s: string, a: nat, b: nat)
    requires NoTag(s) && a <= b <= |s|
    ensures NoTag(s[a..b])
  {
    var u := s[a..];
    forall j | 0 <= j < b - a ensures TagLen(u[j..]) == 0 {
      assert u[j..] == s[a + j..];
    }
    PrefixNoTag(u, b - a);
    assert u[..b - a] == s[a..b];
  }

  /** The subject and body sendMail() gives the message. */
  datatype Mail = Mail(subject: string, body: string, html: bool)

  /** The plain-text split: explode(LF, trim($content), 2). */
  function FirstLine(s: string): (r: (string, string))
    ensures '\n' !in r.0
    ensures '\n' in s ==> s == r.0 + "\n" + r.1
    ensures '\n' !in s ==> r == (s, "")
  {
    if |s| == 0 then ("", "")
    else if s[0] == '\n' then ("", s[1..])
    else
      var (a, b) := FirstLine(s[1..]);
      assert s == [s[0]] + s[1..];
      ([s[0]] + a, b)
  }

  /** The subject trimmed from the title never holds a title delimiter. */
  lemma TrimmedTitleNoTag(content: string)
    ensures NoTag(Trim(TitleText(content)))
  {
    TrimNoTag(TitleText(content));
  }

  /** Trimming a text without delimiters leaves none. */
  lemma TrimNoTag(s: string)
    requires NoTag(s)
    ensures NoTag(Trim(s))
  {
    TrimSlice(s);
    SliceNoTag(s, TrimStart(s), TrimStart(s) + |Trim(s)|);
  }

  /** The fixed subject of an HTML message without a usable title. */
  const DefaultSubject := "TYPO3 FE Admin message"

  /** The subject of an HTML message: the trimmed title text, or the fixed
      subject when that is falsy; never falsy itself. */
  function HtmlSubject(content: string): (subject: string)
    ensures TruthyStr(subject)
    ensures var title := Trim(TitleText(content));
      if TruthyStr(title) then subject == title else subject == DefaultSubject
  {
    var title := Trim(TitleText(content));
    if TruthyStr(title) then title else DefaultSubject
  }

  /** The subject and body of a plain message: the first line of the
      trimmed content and the rest, each trimmed. */
  function PlainParts(content: string): (r: (string, string))
    ensures '\n' !in r.0
  {
    var (first, rest) := FirstLine(Trim(content));
    TrimKeepsAbsent(first, '\n');
    (Trim(first), Trim(rest))
  }

  /** sendMail($recipient, $content) without the transport: HTML content
      keeps its body and takes the title as subject (a fixed subject when the
      title is blank); plain content takes its first line as subject and the
      rest as body. */
  function MailParts(content: string): (m: Mail)
    ensures m.html == IsHtmlContent(content)
    ensures m.html ==> m.body == content && m.subject == HtmlSubject(content)
    ensures !m.html ==> '\n' !in m.subject
  {
    if IsHtmlContent(content) then Mail(HtmlSubject(content), content, true)
    else
      var (subject, body) := PlainParts(content);
      Mail(subject, body, false)
  }

  /** A plain message loses nothing but whitespace: when its trimmed text
      has several lines, that text is the subject line, a line break and the
      body, each up to surrounding whitespace; a one-line message is all
      subject. */
  lemma PlainMailSplit(content: string)
    requires !IsHtmlContent(content)
    ensures var t := Trim(content);
      var m := MailParts(content);
      ('\n' in t ==> exists a, b :: t == a + "\n" + b && m.subject == Trim(a) && m.body == Trim(b))
      && ('\n' !in t ==> m.subject == t && m.body == "")
  {
    var t := Trim(content);
    var (a, b) := FirstLine(t);
    assert MailParts(content) == Mail(Trim(a), Trim(b), false);
    if '\n' in t {
      assert t == a + "\n" + b;
    } else {
      assert (a, b) == (t, "");
      TrimIdempotent(content);
    }
  }

  // ------------------------------------------------------- removeRequired

  /** The marker of a field's required-field warning. */
  function RequiredSubpart(f: string): string {
    "###SUB_REQUIRED_FIELD_" + f + "###"
  }

  /** removeRequired($templateCode, $failure): the fields whose warning
      subpart (RequiredSubpart) is removed from the template are the required
      fields that the failure list does not name; the rest keep theirs. */
  function RemovedWarnings(requiredArr: seq<string>, failure: string): (r: seq<string>)
    ensures forall f :: f in r <==> f in requiredArr && !InList(failure, f)
  {
    if |requiredArr| == 0 then []
    else
      (if InList(failure, requiredArr[0]) then [] else [requiredArr[0]])
      + RemovedWarnings(requiredArr[1..], failure)
  }

  /** A required field left blank keeps its warning: evalValues reports it,
      so removeRequired does not remove it (unless an unsetEmpty entry of the
      field withdraws it). */
  lemma BlankRequiredKeepsWarning(data: Data, msgs: map<string, seq<string>>, markers: map<string, string>,
                                  req: seq<string>, evalConf: Option<Row>, env: Validation.EvalEnv,
                                  cap: Validation.Captcha, f: string)
    requires f in req && Validation.Missing(data, f)
    requires evalConf.Some? ==> Validation.NeverUnset(evalConf.value, f)
    ensures f !in RemovedWarnings(req, Validation.Evaluate(data, msgs, markers, req, evalConf, env, cap).failure)
  {
    Validation.RequiredReported(data, msgs, markers, req, evalConf, env, cap, f);
  }
}
