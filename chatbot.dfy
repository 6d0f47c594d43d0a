/**
 * The chat widget of `initChatbot`: the open/close panel, the topic options
 * with their single response block, the WhatsApp deep link, and the
 * back-to-top control.
 */
module Chatbot {
  import opened Common
  import opened UriEncode

  const DefaultWhatsapp: string := "5521999999999"
  const ResponseHeading: string := "Para tirar suas dúvidas, entre em contato pelo nosso WhatsApp"
  const WhatsappBase: string := "https://wa.me/"
  /** Scroll offset past which the back-to-top control shows. */
  const BackToTopThreshold: int := 300

  /**
   * `String.prototype.trim`'s white space and line terminators
   * (ECMA-262 sections 12.2 and 12.3): the characters of category Zs plus
   * TAB, VT, FF, ZWNBSP, LF, CR, LS and PS.
   */
  predicate IsJsSpace(c: char)
  {
    c in JsSpaces || '\U{2000}' <= c <= '\U{200A}'
  }

  /** The white-space characters outside the block U+2000 to U+200A. */
  const JsSpaces: set<char> := {
    '\t', '\n', '\U{000B}', '\U{000C}', '\r', ' ', '\U{00A0}', '\U{1680}',
    '\U{2028}', '\U{2029}', '\U{202F}', '\U{205F}', '\U{3000}', '\U{FEFF}'
  }

  /** The index of the first non-white-space character of `s` at or after `i`, or `|s|`. */
  function SkipSpaces(s: string, i: nat): (k: nat)
    requires i <= |s|
    ensures i <= k <= |s|
    ensures forall j :: i <= j < k ==> IsJsSpace(s[j])
    ensures k == |s| || !IsJsSpace(s[k])
    decreases |s| - i
  {
    if i < |s| && IsJsSpace(s[i]) then SkipSpaces(s, i + 1) else i
  }

  /**
   * The end of `s[lo..hi]` once its trailing white space is dropped: the
   * least `k` from which only white space runs up to `hi`.
   */
  function SkipSpacesBack(s: string, lo: nat, hi: nat): (k: nat)
    requires lo <= hi <= |s|
    ensures lo <= k <= hi
    ensures forall j :: k <= j < hi ==> IsJsSpace(s[j])
    ensures k == lo || !IsJsSpace(s[k - 1])
    decreases hi
  {
    if lo < hi && IsJsSpace(s[hi - 1]) then SkipSpacesBack(s, lo, hi - 1) else hi
  }

  /**
   * `s.trim()`: the result is the slice of `s` that starts right after the
   * leading white space and has only white space after it; it neither
   * starts nor ends with white space, and a string that already does
   * neither is returned as it is.
   */
  function Trim(s: string): (r: string)
    ensures var k := SkipSpaces(s, 0);
      k + |r| <= |s| && r == s[k..k + |r|] &&
      (forall i :: 0 <= i < k ==> IsJsSpace(s[i])) &&
      (forall i :: k + |r| <= i < |s| ==> IsJsSpace(s[i]))
    ensures r == [] || (!IsJsSpace(r[0]) && !IsJsSpace(r[|r| - 1]))
    ensures (s == [] || (!IsJsSpace(s[0]) && !IsJsSpace(s[|s| - 1]))) ==> r == s
  {
    var start := SkipSpaces(s, 0);
    var end := SkipSpacesBack(s, start, |s|);
    s[start..end]
  }

  /**
   * A `[data-chatbot-option]` button: `data-chatbot-option`,
   * `data-chatbot-label`, its text content, `data-chatbot-whatsapp` and the
   * `is-active` class.
   */
  datatype ChatOption = ChatOption(
    key: string,
    labelAttr: Option<string>,
    text: string,
    messageAttr: Option<string>,
    active: bool)

  /** A `.chatbot__option-response` block, inserted right after option `after`. */
  datatype Response = Response(after: nat, heading: string, href: string)

  /** `chatbotOptionConfig[key]`'s heading, for the own keys of the table. */
  function ConfiguredHeading(key: string): Option<string>
  {
    if key in {"info", "projetos", "leticia", "tiago"} then Some(ResponseHeading) else None
  }

  /**
   * `(chatbotOptionConfig[key] || chatbotOptionConfig.info).heading ||
   * CHATBOT_RESPONSE_HEADING`. A missing key falls back to `info`; an
   * inherited member name yields an object without `heading`, which falls back
   * to the constant. Either way every response has the same heading.
   */
  function HeadingFor(key: string): (r: string)
    ensures r == ResponseHeading
  {
    match ConfiguredHeading(key)
    case Some(h) => OrElse(Some(h), ResponseHeading)
    case None => OrElse(ConfiguredHeading("info"), ResponseHeading)
  }

  /** `data-chatbot-label || textContent.trim()`. */
  function Label(o: ChatOption): (r: string)
    ensures Truthy(o.labelAttr) ==> r == o.labelAttr.value
    ensures !Truthy(o.labelAttr) ==> r == Trim(o.text)
  {
    OrElse(o.labelAttr, Trim(o.text))
  }

  /** `data-chatbot-whatsapp || label`. */
  function Message(o: ChatOption): (r: string)
    ensures Truthy(o.messageAttr) ==> r == o.messageAttr.value
    ensures !Truthy(o.messageAttr) ==> r == Label(o)
  {
    OrElse(o.messageAttr, Label(o))
  }

  /** `root.dataset.chatbotWhatsapp || CHATBOT_DEFAULT_WHATSAPP`. */
  function WhatsappNumber(override: Option<string>): (r: string)
    ensures r != ""
    ensures Truthy(override) ==> r == override.value
    ensures !Truthy(override) ==> r == DefaultWhatsapp
  {
    OrElse(override, DefaultWhatsapp)
  }

  /** `https://wa.me/${number}?text=${encodeURIComponent(message)}`. */
  /**
   * The message is percent-encoded, so it adds only unreserved characters and
   * '%' after `?text=`: no `&`, `#` or `?` of its own can end the parameter.
   */
  function WhatsappHref(number: string, message: string): (r: string)
    ensures var k := |WhatsappBase + number + "?text="|;
      k <= |r| && r[..k] == WhatsappBase + number + "?text=" &&
      forall i :: k <= i < |r| ==> Escaped(r[i]) && r[i] != '&' && r[i] != '#' && r[i] != '?'
  {
    WhatsappBase + number + "?text=" + Encode(message)
  }

  /** The response block rendered for option `i`. */
  function ResponseFor(i: nat, o: ChatOption, number: string): (r: Response)
    ensures r.after == i && r.heading == ResponseHeading
    ensures r.href == WhatsappHref(number, Message(o))
  {
    Response(i, HeadingFor(o.key), WhatsappHref(number, Message(o)))
  }

  /** Every option inactive. */
  function Deactivated(options: seq<ChatOption>): (r: seq<ChatOption>)
  {
    seq(|options|, j requires 0 <= j < |options| => options[j].(active := false))
  }

  /** Exactly option `i` active. */
  function Selected(options: seq<ChatOption>, i: nat): (r: seq<ChatOption>)
  {
    seq(|options|, j requires 0 <= j < |options| => options[j].(active := j == i))
  }

  /** The response depends on the option's attributes, not on its `is-active` class. */
  lemma ResponseIgnoresActive(i: nat, o: ChatOption, b: bool, number: string)
    ensures ResponseFor(i, o.(active := b), number) == ResponseFor(i, o, number)
  {
  }

  class Widget {
    /** The option buttons, in document order. */
    const options: array<ChatOption>
    const whatsappNumber: string
    const hasBackToTop: bool
    /** The `.chatbot__option-response` blocks inside the options container. */
    var responses: seq<Response>
    var windowHidden: bool
    var toggleHidden: bool
    var backToTopVisible: bool

    /**
     * Responses never accumulate: there is at most one, it sits after the
     * only active option and links to that option's message; without a
     * response no option is active.
     */
    ghost predicate Valid()
      reads this, options
    {
      |responses| <= 1 &&
      (responses == [] ==> forall j :: 0 <= j < options.Length ==> !options[j].active) &&
      (|responses| == 1 ==>
        var i := responses[0].after;
        i < options.Length &&
        responses[0] == ResponseFor(i, options[i], whatsappNumber) &&
        forall j :: 0 <= j < options.Length ==> (options[j].active <==> j == i))
    }

    /**
     * `initChatbot` on a root that has all required parts: the number
     * override is read once, the back-to-top visibility is set from the
     * current scroll offset and the chat starts closed.
     */
    constructor (initial: seq<ChatOption>, numberOverride: Option<string>, backToTop: bool, scrollY: int)
      ensures Valid() && fresh(options)
      ensures whatsappNumber == WhatsappNumber(numberOverride)
      ensures options[..] == Deactivated(initial) && responses == []
      ensures windowHidden && !toggleHidden
      ensures hasBackToTop == backToTop && backToTopVisible == (backToTop && scrollY > BackToTopThreshold)
    {
      options := new ChatOption[|initial|](j requires 0 <= j < |initial| => initial[j]);
      whatsappNumber := WhatsappNumber(numberOverride);
      hasBackToTop := backToTop;
      responses := [];
      windowHidden := true;
      toggleHidden := false;
      backToTopVisible := false;
      new;
      UpdateBackToTop(scrollY);
      CloseChat();
    }

    /** `resetOptions()`. */
    method ResetOptions()
      modifies options
      ensures options[..] == Deactivated(old(options[..]))
    {
      for j := 0 to options.Length
        invariant options[..j] == Deactivated(old(options[..]))[..j]
        invariant options[j..] == old(options[j..])
      {
        options[j] := options[j].(active := false);
      }
    }

    /** `clearOptionResponses()`. */
    method ClearOptionResponses()
      modifies this`responses
      ensures responses == []
    {
      responses := [];
    }

    /** `openChat()`: the panel shows and the toggle hides. */
    method OpenChat()
      requires Valid()
      modifies this`windowHidden, this`toggleHidden
      ensures Valid() && !windowHidden && toggleHidden
    {
      windowHidden := false;
      toggleHidden := true;
    }

    /** `closeChat()`: the panel hides, the toggle shows, no option stays active and no response remains. */
    method CloseChat()
      modifies this`windowHidden, this`toggleHidden, this`responses, options
      ensures Valid() && windowHidden && !toggleHidden
      ensures options[..] == Deactivated(old(options[..])) && responses == []
    {
      windowHidden := true;
      toggleHidden := false;
      ResetOptions();
      ClearOptionResponses();
    }

    /**
     * `handleOptionClick` for a click whose target lies in option `button`
     * (or in no option): exactly that option becomes active and its response
     * replaces any previous one.
     */
    method HandleOptionClick(button: Option<nat>)
      requires Valid()
      requires button.Some? ==> button.value < options.Length
      modifies this`responses, options
      ensures Valid()
      ensures button.None? ==> unchanged(this, options)
      ensures button.Some? ==>
        options[..] == Selected(old(options[..]), button.value) &&
        responses == [ResponseFor(button.value, old(options[button.value]), whatsappNumber)]
    {
      if button.None? {
        return;
      }
      var i := button.value;
      var response := ResponseFor(i, options[i], whatsappNumber);
      ResponseIgnoresActive(i, options[i], true, whatsappNumber);
      SelectOnly(i);
      ClearOptionResponses();
      responses := responses + [response];
      assert options[i] == old(options[i]).(active := true);
    }

    /** The `forEach` of `handleOptionClick` that toggles `is-active` on every option. */
    method SelectOnly(i: nat)
      modifies options
      ensures options[..] == Selected(old(options[..]), i)
    {
      for j := 0 to options.Length
        invariant options[..j] == Selected(old(options[..]), i)[..j]
        invariant options[j..] == old(options[j..])
      {
        options[j] := options[j].(active := j == i);
      }
    }

    /** `handleBackToTopVisibility()`. */
    method UpdateBackToTop(scrollY: int)
      modifies this`backToTopVisible
      ensures hasBackToTop ==> backToTopVisible == (scrollY > BackToTopThreshold)
      ensures !hasBackToTop ==> backToTopVisible == old(backToTopVisible)
    {
      if !hasBackToTop {
        return;
      }
      backToTopVisible := scrollY > BackToTopThreshold;
    }
  }

  // ---------------------------------------------------------------------------
  // The WhatsApp link.

  /** Index of the first `c` in `s`. */
  function IndexOf(s: string, c: char): (r: Option<nat>)
    ensures r.None? <==> c !in s
    ensures r.Some? ==> r.value < |s| && s[r.value] == c && c !in s[..r.value]
  {
    if s == [] then None
    else if s[0] == c then Some(0)
    else match IndexOf(s[1..], c)
      case None => None
      case Some(k) => assert s[..k + 1] == [s[0]] + s[1..][..k]; Some(k + 1)
  }

  /**
   * Reads the phone number and the decoded `text` parameter back out of a
   * WhatsApp link.
   */
  function ParseWhatsappHref(href: string): Option<(string, string)>
  {
    if |href| < |WhatsappBase| || href[..|WhatsappBase|] != WhatsappBase then None
    else
      var rest := href[|WhatsappBase|..];
      match IndexOf(rest, '?')
      case None => None
      case Some(q) =>
        var query := rest[q + 1..];
        if |query| < 5 || query[..5] != "text=" then None
        else
          match Decode(query[5..])
          case None => None
          case Some(message) => Some((rest[..q], message))
  }

  /** The first `c` after a prefix free of `c` is right after that prefix. */
  lemma {:induction false} IndexAfterPrefix(prefix: string, c: char, tail: string)
    requires c !in prefix
    ensures IndexOf(prefix + [c] + tail, c) == Some(|prefix|)
    decreases |prefix|
  {
    if prefix != [] {
      assert (prefix + [c] + tail)[1..] == prefix[1..] + [c] + tail;
      IndexAfterPrefix(prefix[1..], c, tail);
    }
  }

  /** Parsing a link of the built shape yields its number and its decoded text. */
  lemma ParseBuiltHref(number: string, encoded: string)
    requires '?' !in number
    ensures ParseWhatsappHref(WhatsappBase + number + "?text=" + encoded) ==
      match Decode(encoded)
      case Some(message) => Some((number, message))
      case None => None
  {
    var query := "text=" + encoded;
    var rest := number + ['?'] + query;
    var href := WhatsappBase + number + "?text=" + encoded;
    assert href == WhatsappBase + rest;
    assert href[..|WhatsappBase|] == WhatsappBase && href[|WhatsappBase|..] == rest;
    IndexAfterPrefix(number, '?', query);
    assert rest[..|number|] == number && rest[|number| + 1..] == query;
    assert query[..5] == "text=" && query[5..] == encoded;
  }

  /** The link carries exactly the number and the message it was built from. */
  lemma WhatsappHrefRoundTrip(number: string, message: string)
    requires '?' !in number
    ensures ParseWhatsappHref(WhatsappHref(number, message)) == Some((number, message))
  {
    ParseBuiltHref(number, Encode(message));
    DecodeEncode(message);
  }

  /**
   * The response to an option links to the configured number, or the default
   * one, with the option's message override, or else its label override, or
   * else its trimmed text.
   */
  lemma ResponseLinkContents(i: nat, o: ChatOption, numberOverride: Option<string>)
    requires Truthy(numberOverride) ==> '?' !in numberOverride.value
    ensures var r := ResponseFor(i, o, WhatsappNumber(numberOverride));
      r.after == i && r.heading == ResponseHeading &&
      ParseWhatsappHref(r.href) == Some((
        if Truthy(numberOverride) then numberOverride.value else DefaultWhatsapp,
        if Truthy(o.messageAttr) then o.messageAttr.value
        else if Truthy(o.labelAttr) then o.labelAttr.value
        else Trim(o.text)))
  {
    var number := if Truthy(numberOverride) then numberOverride.value else DefaultWhatsapp;
    var shown := if Truthy(o.labelAttr) then o.labelAttr.value else Trim(o.text);
    var message := if Truthy(o.messageAttr) then o.messageAttr.value else shown;
    assert WhatsappNumber(numberOverride) == number;
    assert Label(o) == shown && Message(o) == message;
    WhatsappHrefRoundTrip(number, message);
  }

  /** Two selections in a row leave one response, for the second option, and only it active. */
  lemma SelectTwice(options: seq<ChatOption>, i: nat, k: nat)
    requires i < |options| && k < |options|
    ensures Selected(Selected(options, i), k) == Selected(options, k)
  {
  }
}
