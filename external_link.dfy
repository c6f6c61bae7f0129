/** External links of an entity: the link-type enum, the URL and title built from a link's
    id, and the callback that reduces a pasted Wikipedia or Twitter URL to the bare id. */
module ExternalLinkModel {
  import opened Wrappers
  import opened Strings

  // ---------------------------------------------------------------------------
  // Link types

  datatype LinkType = Reserved | Sec | Wikipedia | Twitter

  /** The enum's name of a link type, as `link_type` returns it. */
  function TypeName(t: LinkType): string {
    match t
    case Reserved => "reserved"
    case Sec => "sec"
    case Wikipedia => "wikipedia"
    case Twitter => "twitter"
  }

  /** `link_types`: each name with its position in the enum declaration. */
  const LinkTypes: map<string, nat> := map["reserved" := 0, "sec" := 1, "wikipedia" := 2, "twitter" := 3]

  /** LINK_TYPE_IDS: the pairs of `link_types` reversed. */
  const LinkTypeIds: map<nat, string> := map[0 := "reserved", 1 := "sec", 2 := "wikipedia", 3 := "twitter"]

  /** The stored integer of a link type. */
  function TypeId(t: LinkType): (id: nat)
    ensures TypeName(t) in LinkTypes && LinkTypes[TypeName(t)] == id
  {
    match t
    case Reserved => 0
    case Sec => 1
    case Wikipedia => 2
    case Twitter => 3
  }

  /** LINK_TYPE_IDS inverts `link_types`: both round trips are the identity. */
  lemma LinkTypeIdsInverse()
    ensures forall name :: name in LinkTypes ==> LinkTypes[name] in LinkTypeIds && LinkTypeIds[LinkTypes[name]] == name
    ensures forall id :: id in LinkTypeIds ==> LinkTypeIds[id] in LinkTypes && LinkTypes[LinkTypeIds[id]] == id
  {
  }

  /** Every link type has its own id, and the id names the type back. */
  lemma TypeIdRoundTrip(t: LinkType, u: LinkType)
    ensures TypeId(t) in LinkTypeIds && LinkTypeIds[TypeId(t)] == TypeName(t)
    ensures TypeId(t) == TypeId(u) ==> t == u
  {
  }

  const EditableTypes: seq<string> := ["wikipedia", "twitter"]

  /** editable?: only Wikipedia and Twitter links are edited by hand. */
  function Editable(t: LinkType): (r: bool)
    ensures r <==> t == Wikipedia || t == Twitter
  {
    TypeName(t) in EditableTypes
  }

  // ---------------------------------------------------------------------------
  // URL and title

  /** TypeError for the reserved type; a bad replacement escape in the id raises from gsub. */
  datatype LinkError = TypeError(message: string) | BadReplacement(cause: GsubError)

  const ReservedMessage := "Do not create ExternalLinks of type \"reserved\""

  const LinkPlaceholder := "{}"

  const SecBrowse := "https://www.sec.gov/cgi-bin/browse-edgar"
  const SecQuery := "?action=getcompany&CIK="
  const SecTemplateHead := SecBrowse + SecQuery
  const SecTemplateTail := "&output=xml"
  const WikipediaTemplateHead := "https://en.wikipedia.org/wiki/"
  const TwitterTemplateHead := "https://twitter.com/"

  /** The part of a type's URL template before its placeholder. */
  function TemplateHead(t: LinkType): string {
    match t
    case Sec => SecTemplateHead
    case Wikipedia => WikipediaTemplateHead
    case Twitter => TwitterTemplateHead
    case Reserved => ""
  }

  /** The part of a type's URL template after its placeholder. */
  function TemplateTail(t: LinkType): string {
    if t == Sec then SecTemplateTail else ""
  }

  /** url_template: where the type's pages live, with `{}` where the id goes. */
  function UrlTemplate(t: LinkType): (r: Result<string, LinkError>)
    ensures r.Failure? <==> t == Reserved
    ensures r.Failure? ==> r.error == TypeError(ReservedMessage)
    ensures r.Success? ==> r.value == TemplateHead(t) + LinkPlaceholder + TemplateTail(t)
  {
    if t == Reserved then Failure(TypeError(ReservedMessage))
    else Success(TemplateHead(t) + LinkPlaceholder + TemplateTail(t))
  }

  /** url: the template with every `{}` replaced through gsub by the link id. */
  function Url(t: LinkType, linkId: string): (r: Result<string, LinkError>)
    ensures t == Reserved ==> r == Failure(TypeError(ReservedMessage))
    ensures r.Failure? && t != Reserved ==> r.error.BadReplacement?
  {
    match UrlTemplate(t)
    case Failure(e) => Failure(e)
    case Success(template) =>
      match Gsub(template, LinkPlaceholder, linkId)
      case Success(u) => Success(u)
      case Failure(e) => Failure(BadReplacement(e))
  }

  /** Filling a template that holds the placeholder once: the head, the expansion of the
      id for that match, the tail. */
  lemma FillTemplate(head: string, tail: string, linkId: string)
    requires '{' !in head && '{' !in tail
    ensures Gsub(head + LinkPlaceholder + tail, LinkPlaceholder, linkId) ==
      Surround(head, Expand(linkId, LinkPlaceholder, head, tail), tail)
  {
    GsubOnce(head, LinkPlaceholder, linkId, tail);
  }

  lemma SecBrowseBraceFree()
    ensures '{' !in SecBrowse
  {
  }

  lemma SecQueryBraceFree()
    ensures '{' !in SecQuery && '{' !in SecTemplateTail
  {
  }

  lemma WikipediaBraceFree()
    ensures '{' !in WikipediaTemplateHead
  {
  }

  lemma TwitterBraceFree()
    ensures '{' !in TwitterTemplateHead
  {
  }

  /** No template has a brace outside its placeholder. */
  lemma TemplatesBraceFree(t: LinkType)
    ensures '{' !in TemplateHead(t) && '{' !in TemplateTail(t)
  {
    SecBrowseBraceFree();
    SecQueryBraceFree();
    WikipediaBraceFree();
    TwitterBraceFree();
  }

  /** The id lands exactly where the placeholder stood, expanded as gsub expands a
      replacement; an id without a backslash lands as it is, so a Twitter link's URL is the
      profile address followed by the handle, and so on for every type. */
  lemma UrlShape(t: LinkType, linkId: string)
    requires t != Reserved
    ensures var x := Expand(linkId, LinkPlaceholder, TemplateHead(t), TemplateTail(t));
      Url(t, linkId) == if x.Success? then Success(TemplateHead(t) + x.value + TemplateTail(t))
                        else Failure(BadReplacement(x.error))
    ensures '\\' !in linkId ==> Url(t, linkId) == Success(TemplateHead(t) + linkId + TemplateTail(t))
  {
    TemplatesBraceFree(t);
    FillTemplate(TemplateHead(t), TemplateTail(t), linkId);
    if '\\' !in linkId {
      ExpandPlain(linkId, LinkPlaceholder, TemplateHead(t), TemplateTail(t));
    }
  }

  /** gsub reads `\0` in an id as the matched placeholder. */
  lemma UrlExpandsMatch()
    ensures Url(Twitter, "a\\0b") == Success(TwitterTemplateHead + "a{}b")
  {
    var id := "a\\0b";
    UrlShape(Twitter, id);
    var pre, post := TemplateHead(Twitter), TemplateTail(Twitter);
    assert id[3..] == "b" && "b"[1..] == [] && "b"[..1] + [] == "b";
    assert Expand("b", LinkPlaceholder, pre, post) == Success("b");
    assert id[1..] == "\\0b" && "\\0b"[2..] == "b";
    assert Expand(id[1..], LinkPlaceholder, pre, post) == Success(LinkPlaceholder + "b");
    assert id[..1] + (LinkPlaceholder + "b") == "a{}b";
    assert Expand(id, LinkPlaceholder, pre, post) == Success("a{}b");
    assert pre + "a{}b" + post == TwitterTemplateHead + "a{}b";
  }

  /** gsub raises on a named group reference in an id. */
  lemma UrlRejectsGroupName()
    ensures Url(Twitter, "\\k<x>") == Failure(BadReplacement(UndefinedGroupName("x")))
  {
    var id := "\\k<x>";
    UrlShape(Twitter, id);
    var name := id[3..];
    assert id[0] == '\\' && id[1] == 'k' && id[2] == '<';
    assert name == "x>" && '>' in name && IndexOf(name, '>') == 1 && name[..1] == "x";
    assert Expand(id, LinkPlaceholder, TemplateHead(Twitter), TemplateTail(Twitter)) ==
      Failure(UndefinedGroupName("x"));
  }

  /** title: the label shown for a link. */
  function Title(t: LinkType, linkId: string): (r: Result<string, LinkError>)
    ensures r.Failure? <==> t == Reserved
    ensures t == Twitter ==> r.Success? && |r.value| >= 9 && r.value[..9] == "Twitter @" && r.value[9..] == linkId
  {
    match t
    case Sec => Success("Sec - Edgar")
    case Wikipedia => Success("Wikipedia")
    case Twitter => Success("Twitter @" + linkId)
    case Reserved => Failure(TypeError(ReservedMessage))
  }

  /** Title and URL both fail on the reserved type, with the same error; otherwise only the
      URL can fail, and only on a replacement escape in the id. */
  lemma TitleUrlAgree(t: LinkType, linkId: string)
    ensures Title(t, linkId).Failure? ==>
      Title(t, linkId) == Failure(TypeError(ReservedMessage)) && Url(t, linkId) == Failure(TypeError(ReservedMessage))
    ensures Title(t, linkId).Success? && Url(t, linkId).Failure? ==> Url(t, linkId).error.BadReplacement?
    ensures '\\' !in linkId ==> (Title(t, linkId).Failure? <==> Url(t, linkId).Failure?)
  {
    if t != Reserved {
      UrlShape(t, linkId);
    }
  }

  // ---------------------------------------------------------------------------
  // The two URL patterns

  /** One position of a pattern: a character compared case-insensitively, `.` (anything
      but a newline), or an optional character `c?`. */
  datatype Atom = Ch(c: char) | AnyChar | OptCh(c: char)

  /** A literal run of characters. */
  function Lits(w: string): (p: seq<Atom>)
    ensures |p| == |w| && forall k :: 0 <= k < |w| ==> p[k] == Ch(w[k])
  {
    seq(|w|, k requires 0 <= k < |w| => Ch(w[k]))
  }

  /** Case-insensitive comparison of ASCII letters. */
  predicate SameLetter(a: char, b: char) {
    LowerChar(a) == LowerChar(b)
  }

  /** The length of the run of characters other than newline at the start of `s`. */
  function LineLength(s: string): (n: nat)
    ensures n <= |s| && '\n' !in s[..n]
    ensures n < |s| ==> s[n] == '\n'
  {
    if s == [] || s[0] == '\n' then 0
    else
      var n := 1 + LineLength(s[1..]);
      assert s[..n] == [s[0]] + s[1..][..n - 1];
      n
  }

  /** The capture of a final greedy `(.+)` from position i: the rest of the line, which
      must not be empty. */
  function RestOfLine(s: string, i: nat): Option<string>
    requires i <= |s|
  {
    var n := LineLength(s[i..]);
    if n >= 1 then Some(s[i..i + n]) else None
  }

  /** The capture of `(.+)` when the pattern `p` is matched from position i, trying each
      optional character first with it and then without, as a backtracking engine does;
      the final `(.+)` takes the rest of the line and needs at least one character. */
  function MatchFrom(p: seq<Atom>, s: string, i: nat): Option<string>
    requires i <= |s|
    decreases |p| + (|s| - i)
  {
    if p == [] then RestOfLine(s, i)
    else match p[0]
      case Ch(c) =>
        if i < |s| && SameLetter(s[i], c) then MatchFrom(p[1..], s, i + 1) else None
      case AnyChar =>
        if i < |s| && s[i] != '\n' then MatchFrom(p[1..], s, i + 1) else None
      case OptCh(c) =>
        var taken := if i < |s| && SameLetter(s[i], c) then MatchFrom(p[1..], s, i + 1) else None;
        if taken.Some? then taken else MatchFrom(p[1..], s, i)
  }

  /** The unanchored search: the leftmost position at which the pattern matches. */
  function Search(p: seq<Atom>, s: string, i: nat): Option<string>
    requires i <= |s|
    decreases |s| - i
  {
    match MatchFrom(p, s, i)
    case Some(capture) => Some(capture)
    case None => if i == |s| then None else Search(p, s, i + 1)
  }

  /** WIKIPEDIA_REGEX after its scheme: ://en.wikipedia.org/wiki/? */
  const WikipediaAfterScheme: seq<Atom> :=
    Lits("://en") + [AnyChar] + Lits("wikipedia") + [AnyChar] + Lits("org/wiki") + [OptCh('/')]

  /** WIKIPEDIA_REGEX: https?://en.wikipedia.org/wiki/?(.+), case-insensitive. */
  const WikipediaPattern: seq<Atom> := Lits("http") + [OptCh('s')] + WikipediaAfterScheme

  /** TWITTER_REGEX after its scheme: ://twitter.com/? */
  const TwitterAfterScheme: seq<Atom> := Lits("://twitter") + [AnyChar] + Lits("com") + [OptCh('/')]

  /** TWITTER_REGEX: https?://twitter.com/?(.+), case-insensitive. */
  const TwitterPattern: seq<Atom> := Lits("http") + [OptCh('s')] + TwitterAfterScheme

  /** Whether an atom takes the character when it takes one. */
  predicate Accepts(a: Atom, x: char) {
    match a
    case Ch(c) => SameLetter(x, c)
    case AnyChar => x != '\n'
    case OptCh(c) => SameLetter(x, c)
  }

  /** The pattern reads the text `w` one atom per character, every optional character
      present. */
  predicate Spells(p: seq<Atom>, w: string) {
    |p| == |w| && forall k :: 0 <= k < |w| ==> Accepts(p[k], w[k])
  }

  lemma SpellsLits(w: string)
    ensures Spells(Lits(w), w)
  {
  }

  lemma SpellsAppend(p: seq<Atom>, w: string, q: seq<Atom>, v: string)
    requires Spells(p, w) && Spells(q, v)
    ensures Spells(p + q, w + v)
  {
    forall k | 0 <= k < |w + v| ensures Accepts((p + q)[k], (w + v)[k]) {
      if k >= |w| {
        assert (p + q)[k] == q[k - |w|] && (w + v)[k] == v[k - |w|];
      }
    }
  }

  /** A spelled prefix is consumed character by character once what follows it matches:
      each optional character is tried present first, and that try succeeds. */
  lemma {:induction false} MatchSpelled(p: seq<Atom>, rest: seq<Atom>, s: string, i: nat, w: string)
    requires Spells(p, w) && i + |w| <= |s| && s[i..i + |w|] == w
    requires MatchFrom(rest, s, i + |w|).Some?
    ensures MatchFrom(p + rest, s, i) == MatchFrom(rest, s, i + |w|)
    decreases |w|
  {
    if w == [] {
      assert p + rest == rest;
    } else {
      var q := p + rest;
      assert q[0] == p[0] && q[1..] == p[1..] + rest;
      assert s[i] == s[i..i + |w|][0] == w[0];
      assert Accepts(p[0], w[0]);
      assert s[i + 1..i + 1 + |w[1..]|] == s[i..i + |w|][1..];
      assert Spells(p[1..], w[1..]) by {
        forall k | 0 <= k < |w[1..]| ensures Accepts(p[1..][k], w[1..][k]) {
          assert p[1..][k] == p[k + 1] && w[1..][k] == w[k + 1];
        }
      }
      MatchSpelled(p[1..], rest, s, i + 1, w[1..]);
    }
  }

  lemma {:induction false} LineLengthAll(t: string)
    requires '\n' !in t
    ensures LineLength(t) == |t|
  {
    if t != [] {
      assert '\n' !in t[1..] by {
        forall c | c in t[1..] ensures c != '\n' {
          assert c in t;
        }
      }
      LineLengthAll(t[1..]);
    }
  }

  /** The final `(.+)` takes a non-empty line to its end. */
  lemma MatchTail(p: seq<Atom>, s: string, i: nat)
    requires p == [] && i < |s| && '\n' !in s[i..]
    ensures MatchFrom(p, s, i) == Some(s[i..])
  {
    var t := s[i..];
    LineLengthAll(t);
    assert s[i..i + |t|] == t;
  }

  /** An optional character that is present is taken when the rest then matches. */
  lemma MatchOptTaken(p: seq<Atom>, s: string, i: nat)
    requires p != [] && p[0].OptCh? && i < |s| && SameLetter(s[i], p[0].c)
    requires MatchFrom(p[1..], s, i + 1).Some?
    ensures MatchFrom(p, s, i) == MatchFrom(p[1..], s, i + 1)
  {
  }

  /** An optional character that is absent is skipped. */
  lemma MatchOptSkipped(p: seq<Atom>, s: string, i: nat)
    requires p != [] && p[0].OptCh? && i < |s| && !SameLetter(s[i], p[0].c)
    ensures MatchFrom(p, s, i) == MatchFrom(p[1..], s, i)
  {
  }

  /** Matching `https?` at the start of text that begins with "http", then an optional
      's' (n is where the scheme ends), then a colon. */
  lemma MatchScheme(rest: seq<Atom>, s: string, n: nat)
    requires n == 4 || n == 5
    requires |s| > n && s[..4] == "http" && s[n] == ':' && (n == 5 ==> s[4] == 's')
    requires MatchFrom(rest, s, n).Some?
    ensures MatchFrom(Lits("http") + ([OptCh('s')] + rest), s, 0) == MatchFrom(rest, s, n)
  {
    var p := [OptCh('s')] + rest;
    assert p[0] == OptCh('s') && p[1..] == rest;
    if n == 4 {
      assert !SameLetter(':', 's');
      MatchOptSkipped(p, s, 4);
    } else {
      MatchOptTaken(p, s, 4);
    }
    SpellsLits("http");
    MatchSpelled(Lits("http"), p, s, 0, "http");
  }

  /** The pattern finds the capture at the start of the text when it matches there. */
  lemma SearchAtStart(p: seq<Atom>, s: string)
    requires MatchFrom(p, s, 0).Some?
    ensures Search(p, s, 0) == MatchFrom(p, s, 0)
  {
  }

  /** A URL pattern `https?` followed by atoms that spell `mid` captures, from the pasted
      address scheme + mid + tail, the tail to the end of its line. */
  lemma CaptureAfterScheme(afterScheme: seq<Atom>, mid: string, scheme: string, tail: string)
    requires Spells(afterScheme, mid) && mid != [] && mid[0] == ':'
    requires scheme == "http" || scheme == "https"
    requires tail != [] && '\n' !in tail
    ensures Search(Lits("http") + [OptCh('s')] + afterScheme, scheme + mid + tail, 0) == Some(tail)
  {
    var s := scheme + mid + tail;
    var n := |scheme|;
    assert n == 4 || (n == 5 && scheme[4] == 's');
    assert scheme[..4] == "http";
    assert s[..n] == scheme && s[n..n + |mid|] == mid && s[n + |mid|..] == tail;
    assert s[..4] == "http" && s[n] == ':';
    assert n == 5 ==> s[4] == 's';
    MatchTail([], s, n + |mid|);
    MatchSpelled(afterScheme, [], s, n, mid);
    assert afterScheme + [] == afterScheme;
    MatchScheme(afterScheme, s, n);
    assert Lits("http") + [OptCh('s')] + afterScheme == Lits("http") + ([OptCh('s')] + afterScheme);
    SearchAtStart(Lits("http") + [OptCh('s')] + afterScheme, s);
  }

  /** The atoms after WIKIPEDIA_REGEX's scheme spell "://en.wikipedia.org/wiki/". */
  lemma WikipediaSpells()
    ensures Spells(WikipediaAfterScheme, "://en.wikipedia.org/wiki/")
  {
    SpellsLits("://en");
    SpellsLits("wikipedia");
    SpellsLits("org/wiki");
    assert Spells([AnyChar], ".") && Spells([OptCh('/')], "/");
    SpellsAppend(Lits("://en"), "://en", [AnyChar], ".");
    SpellsAppend(Lits("://en") + [AnyChar], "://en.", Lits("wikipedia"), "wikipedia");
    SpellsAppend(Lits("://en") + [AnyChar] + Lits("wikipedia"), "://en.wikipedia", [AnyChar], ".");
    SpellsAppend(Lits("://en") + [AnyChar] + Lits("wikipedia") + [AnyChar], "://en.wikipedia.",
      Lits("org/wiki"), "org/wiki");
    SpellsAppend(Lits("://en") + [AnyChar] + Lits("wikipedia") + [AnyChar] + Lits("org/wiki"),
      "://en.wikipedia.org/wiki", [OptCh('/')], "/");
    assert "://en.wikipedia.org/wiki" + "/" == "://en.wikipedia.org/wiki/";
  }

  /** The atoms after TWITTER_REGEX's scheme spell "://twitter.com/". */
  lemma TwitterSpells()
    ensures Spells(TwitterAfterScheme, "://twitter.com/")
  {
    SpellsLits("://twitter");
    SpellsLits("com");
    assert Spells([AnyChar], ".") && Spells([OptCh('/')], "/");
    SpellsAppend(Lits("://twitter"), "://twitter", [AnyChar], ".");
    SpellsAppend(Lits("://twitter") + [AnyChar], "://twitter.", Lits("com"), "com");
    SpellsAppend(Lits("://twitter") + [AnyChar] + Lits("com"), "://twitter.com", [OptCh('/')], "/");
    assert "://twitter.com" + "/" == "://twitter.com/";
  }

  /** The pasted page URL "http(s)://en.wikipedia.org/wiki/<name>" captures <name>. */
  lemma WikipediaCapture(scheme: string, name: string)
    requires scheme == "http" || scheme == "https"
    requires name != [] && '\n' !in name
    ensures Search(WikipediaPattern, scheme + "://en.wikipedia.org/wiki/" + name, 0) == Some(name)
  {
    WikipediaSpells();
    CaptureAfterScheme(WikipediaAfterScheme, "://en.wikipedia.org/wiki/", scheme, name);
  }

  /** The pasted profile URL "http(s)://twitter.com/<handle>" captures <handle>. */
  lemma TwitterCapture(scheme: string, handle: string)
    requires scheme == "http" || scheme == "https"
    requires handle != [] && '\n' !in handle
    ensures Search(TwitterPattern, scheme + "://twitter.com/" + handle, 0) == Some(handle)
  {
    TwitterSpells();
    CaptureAfterScheme(TwitterAfterScheme, "://twitter.com/", scheme, handle);
  }

  /** A pattern beginning with a letter finds nothing in text that lacks that letter in
      either case. */
  lemma {:induction false} SearchNeedsFirstLetter(p: seq<Atom>, c: char, s: string, i: nat)
    requires i <= |s| && p != [] && p[0] == Ch(c)
    requires forall k :: i <= k < |s| ==> !SameLetter(s[k], c)
    ensures Search(p, s, i) == None
    decreases |s| - i
  {
    if i < |s| {
      SearchNeedsFirstLetter(p, c, s, i + 1);
    }
  }

  // ---------------------------------------------------------------------------
  // The stored link

  /** An external link record: its type and the id the URL is built from. */
  class ExternalLink {
    var linkType: LinkType
    var linkId: string

    constructor (linkType: LinkType, linkId: string)
      ensures this.linkType == linkType && this.linkId == linkId
    {
      this.linkType := linkType;
      this.linkId := linkId;
    }

    /** parse_id_input, run before validation: a Wikipedia link whose id matches the page
        pattern keeps the capture; a Twitter link keeps the capture of the profile pattern,
        or else drops the '@' of a stripped handle; nothing else changes. */
    method ParseIdInput()
      modifies this
      ensures linkType == old(linkType)
      ensures old(linkType) == Wikipedia && Search(WikipediaPattern, old(linkId), 0).Some? ==>
        linkId == Search(WikipediaPattern, old(linkId), 0).value
      ensures old(linkType) == Twitter && Search(TwitterPattern, old(linkId), 0).Some? ==>
        linkId == Search(TwitterPattern, old(linkId), 0).value
      ensures old(linkType) == Twitter && Search(TwitterPattern, old(linkId), 0).None? ==>
        var stripped := Strip(old(linkId));
        linkId == if stripped != [] && stripped[0] == '@' then stripped[1..] else old(linkId)
      ensures old(linkType) == Sec || old(linkType) == Reserved ==> linkId == old(linkId)
      ensures old(linkType) == Wikipedia && Search(WikipediaPattern, old(linkId), 0).None? ==>
        linkId == old(linkId)
    {
      var wikiMatch := Search(WikipediaPattern, linkId, 0);
      if linkType == Wikipedia && wikiMatch.Some? {
        linkId := wikiMatch.value;
      } else if linkType == Twitter {
        var twitterMatch := Search(TwitterPattern, linkId, 0);
        if twitterMatch.Some? {
          linkId := twitterMatch.value;
        } else {
          var stripped := Strip(linkId);
          if stripped != [] && stripped[0] == '@' {
            linkId := stripped[1..];
          }
        }
      }
    }
  }

  /** Pasting a Wikipedia page's URL as the id, then building the link's URL, gives the URL
      built from the bare article name: the https form of that page's address whenever the
      name holds no backslash. */
  method WikipediaUrlRoundTrip(scheme: string, name: string) returns (url: Result<string, LinkError>)
    requires scheme == "http" || scheme == "https"
    requires name != [] && '\n' !in name
    ensures url == Url(Wikipedia, name)
    ensures '\\' !in name ==> url == Success(WikipediaTemplateHead + name)
  {
    var link := new ExternalLink(Wikipedia, scheme + "://en.wikipedia.org/wiki/" + name);
    WikipediaCapture(scheme, name);
    link.ParseIdInput();
    UrlShape(Wikipedia, link.linkId);
    assert WikipediaTemplateHead + name + "" == WikipediaTemplateHead + name;
    url := Url(link.linkType, link.linkId);
  }

  /** Stripping " @handle " leaves "@handle" when the handle ends in a visible character. */
  lemma StripSpacedHandle(handle: string)
    requires handle != [] && !IsStripped(handle[|handle| - 1])
    ensures Strip(" @" + handle + " ") == "@" + handle
  {
    var at := "@" + handle;
    var spaced := at + [' '];
    assert LStrip(" @" + handle + " ") == spaced by {
      assert " @" + handle + " " == [' '] + spaced;
      LStripPast(' ', spaced);
      LStripNone(spaced);
    }
    assert RStrip(spaced) == at by {
      RStripPast(at, ' ');
      RStripNone(at);
    }
  }

  /** A handle typed with its '@' and stray spaces, which the profile pattern does not
      match, is stored bare. */
  method TwitterHandleInput(handle: string) returns (stored: string)
    requires handle != [] && !IsStripped(handle[|handle| - 1])
    requires Search(TwitterPattern, " @" + handle + " ", 0).None?
    ensures stored == handle
  {
    var input := " @" + handle + " ";
    var link := new ExternalLink(Twitter, input);
    StripSpacedHandle(handle);
    link.ParseIdInput();
    stored := link.linkId;
    assert ("@" + handle)[1..] == handle;
  }

  /** The profile pattern starts with 'h', so a spaced handle without that letter, in either
      case, does not match it. */
  lemma HandleWithoutH(handle: string)
    requires 'h' !in handle && 'H' !in handle
    ensures Search(TwitterPattern, " @" + handle + " ", 0).None?
  {
    var input := " @" + handle + " ";
    forall k | 0 <= k < |input| ensures !SameLetter(input[k], 'h') {
      if 2 <= k < |input| - 1 {
        assert input[k] == handle[k - 2];
      }
    }
    assert TwitterPattern[0] == Ch('h');
    SearchNeedsFirstLetter(TwitterPattern, 'h', input, 0);
  }
}
