/**
 * The site footer: the newsletter form (the e-mail pattern, the subscribe
 * handler's `email`/`loading` transitions, the field's `aria-invalid`) and
 * the rule that a link is rendered only when its href is truthy.
 */
module Footer {
  import opened Wrappers
  import opened JsText
  import opened Toasts

  /** A character of the class `[^\s@]`. */
  predicate Plain(c: char) {
    !IsWhitespace(c) && c != '@'
  }

  /**
   * `/^[^\s@]+@[^\s@]+\.[^\s@]+$/` matches `s` with its '@' at `a` and its
   * `\.` at `d`: three non-empty runs of plain characters around them.
   */
  ghost predicate MatchesAt(s: string, a: int, d: int) {
    0 < a && a + 1 < d && d + 1 < |s| && s[a] == '@' && s[d] == '.' &&
    (forall k :: 0 <= k < a ==> Plain(s[k])) &&
    (forall k :: a < k < d ==> Plain(s[k])) &&
    (forall k :: d < k < |s| ==> Plain(s[k]))
  }

  /** The regular expression's language. */
  ghost predicate RegexMatches(s: string) {
    exists a, d :: MatchesAt(s, a, d)
  }

  predicate NoWhitespace(s: string) {
    forall k :: 0 <= k < |s| ==> !IsWhitespace(s[k])
  }

  /** A '.' that is neither the first nor the last character. */
  predicate HasInnerDot(domain: string) {
    |domain| >= 3 && '.' in domain[1..|domain| - 1]
  }

  /**
   * The e-mail test, read as: no white space; exactly one '@', not first;
   * and after it a domain with a '.' that is neither its first nor its last
   * character.
   */
  predicate EmailPattern(s: string) {
    NoWhitespace(s) && '@' in s &&
    var a := IndexOf(s, '@');
    a > 0 && '@' !in s[a + 1..] && HasInnerDot(s[a + 1..])
  }

  /** The reading above and the regular expression accept the same strings. */
  lemma EmailPatternIsRegex(s: string)
    ensures EmailPattern(s) <==> RegexMatches(s)
  {
    if EmailPattern(s) {
      PatternMatches(s);
    }
    if RegexMatches(s) {
      var a, d :| MatchesAt(s, a, d);
      MatchPassesPattern(s, a, d);
    }
  }

  lemma {:induction false} PatternMatches(s: string)
    requires EmailPattern(s)
    ensures RegexMatches(s)
  {
    var a := IndexOf(s, '@');
    var dom := s[a + 1..];
    var p :| 0 <= p < |dom[1..|dom| - 1]| && dom[1..|dom| - 1][p] == '.';
    var d := a + 2 + p;
    assert s[d] == '.' by {
      assert dom[1..|dom| - 1][p] == dom[p + 1];
      assert dom[p + 1] == s[a + 1 + p + 1];
    }
    forall k | 0 <= k < |s| && k != a ensures Plain(s[k]) {
      assert !IsWhitespace(s[k]);
      if k > a {
        assert s[k] == dom[k - a - 1];
        assert s[k] in dom;
      }
    }
    assert MatchesAt(s, a, d);
  }

  lemma {:induction false} MatchPassesPattern(s: string, a: int, d: int)
    requires MatchesAt(s, a, d)
    ensures EmailPattern(s)
  {
    assert s[a] == '@';
    assert IndexOf(s, '@') == a;
    var dom := s[a + 1..];
    assert dom[1..|dom| - 1][d - a - 2] == '.';
    assert '@' !in dom by {
      forall k | 0 <= k < |dom| ensures dom[k] != '@' {
        assert dom[k] == s[a + 1 + k];
      }
    }
    assert NoWhitespace(s) by {
      forall k | 0 <= k < |s| ensures !IsWhitespace(s[k]) {
        if k != a { assert Plain(s[k]); }
      }
    }
  }

  /** A string the pattern accepts has nothing for `trim` to remove. */
  lemma PatternHasNothingToTrim(s: string)
    requires EmailPattern(s)
    ensures Trim(s) == s
  {
  }

  /** `aria-invalid` on the field: a non-empty raw (untrimmed) value that fails the pattern. */
  predicate AriaInvalid(email: string) {
    |email| > 0 && !EmailPattern(email)
  }

  /** A non-empty value the field does not mark invalid is accepted on submit, unchanged by trimming. */
  lemma NotMarkedInvalidIsAccepted(email: string)
    requires email != "" && !AriaInvalid(email)
    ensures EmailPattern(Trim(email)) && Trim(email) == email
  {
  }

  /**
   * A value that starts with a no-break space is marked invalid in the
   * field (`\s` matches U+00A0) yet accepted on submit (`trim` removes it).
   * Browsers strip only ASCII white space from an e-mail input's value, so
   * this character reaches the component.
   */
  lemma PaddedValueMarkedButAccepted()
    ensures AriaInvalid("\U{A0}a@b.co") && EmailPattern(Trim("\U{A0}a@b.co"))
  {
    PaddedTrims();
    SampleMatches();
    assert !NoWhitespace("\U{A0}a@b.co") by {
      assert IsWhitespace("\U{A0}a@b.co"[0]);
    }
  }

  lemma PaddedTrims()
    ensures Trim("\U{A0}a@b.co") == "a@b.co"
  {
    var t := "a@b.co";
    assert "\U{A0}a@b.co" == ['\U{A0}'] + t;
    assert !IsWhitespace(t[0]) && !IsWhitespace(t[|t| - 1]);
    TrimDropsLeadingWhitespace('\U{A0}', t);
  }

  lemma TrimDropsLeadingWhitespace(c: char, t: string)
    requires IsWhitespace(c)
    requires t != [] && !IsWhitespace(t[0]) && !IsWhitespace(t[|t| - 1])
    ensures Trim([c] + t) == t
  {
  }

  lemma SampleMatches()
    ensures EmailPattern("a@b.co")
  {
    assert MatchesAt("a@b.co", 1, 3);
    EmailPatternIsRegex("a@b.co");
  }

  const InvalidEmailMessage: string := "Please enter a valid email address."
  const SubscribedMessage: string := "Subscribed! Welcome to Endora Creatives."

  /**
   * What submitting the form did: rejected with a toast, or the request is
   * in flight, carrying what `onSubscribe` was called with (`None` when no
   * callback was given and the delay is simulated).
   */
  datatype SubmitOutcome = Rejected(toast: Toast) | Pending(request: Option<string>)

  /** The newsletter form's state. */
  class Newsletter {
    const hasCallback: bool
    var email: string
    var loading: bool

    constructor (hasCallback: bool)
      ensures this.hasCallback == hasCallback && email == "" && !loading
    {
      this.hasCallback := hasCallback;
      email := "";
      loading := false;
    }

    /** The field's `onChange`. */
    method Input(value: string)
      modifies this
      ensures email == value && loading == old(loading)
    {
      email := value;
    }

    /**
     * The first half of `handleSubscribe`, up to the `await`: an invalid
     * trimmed address only raises a toast; a valid one sets `loading` and
     * hands the TRIMMED address to `onSubscribe`.
     */
    method Submit() returns (outcome: SubmitOutcome)
      modifies this
      ensures email == old(email)
      ensures !EmailPattern(Trim(old(email))) ==>
                outcome == Rejected(ErrorToast(InvalidEmailMessage)) && loading == old(loading)
      ensures EmailPattern(Trim(old(email))) ==>
                loading && outcome == Pending(if hasCallback then Some(Trim(old(email))) else None)
    {
      var trimmed := Trim(email);
      if !EmailPattern(trimmed) {
        outcome := Rejected(ErrorToast(InvalidEmailMessage));
        return;
      }
      loading := true;
      outcome := Pending(if hasCallback then Some(trimmed) else None);
    }

    /**
     * The second half, after the `await`: `rejected` says whether
     * `onSubscribe`'s promise was rejected (the simulated delay never is).
     * Success clears the field; failure keeps it; `loading` ends false either way.
     */
    method Settle(rejected: bool) returns (toast: Toast)
      requires loading
      modifies this
      ensures !loading
      ensures (!hasCallback || !rejected) ==> email == "" && toast == SuccessToast(SubscribedMessage)
      ensures (hasCallback && rejected) ==> email == old(email) && toast == ErrorToast(FailureMessage)
    {
      if hasCallback && rejected {
        toast := ErrorToast(FailureMessage);
      } else {
        toast := SuccessToast(SubscribedMessage);
        email := "";
      }
      loading := false;
    }
  }

  /** What a link slot renders. */
  datatype Rendered =
    | NextLink(href: string, text: string)                       // Next.js `Link`
    | ExternalAnchor(href: string, ariaLabel: string)             // `<a target="_blank">`
    | AriaDisabledText(text: string)                              // `<span aria-disabled="true">`
    | DisabledButton(ariaLabel: string, title: string)            // `<button disabled>`

  /** `LinkOrText`: a link exactly when `href` is truthy, otherwise an aria-disabled span. */
  function LinkOrText(href: Option<string>, text: string): (r: Rendered)
    ensures r.NextLink? <==> Truthy(href)
    ensures r.NextLink? ==> r == NextLink(href.value, text)
    ensures !r.NextLink? ==> r == AriaDisabledText(text)
  {
    if Truthy(href) then NextLink(href.value, text) else AriaDisabledText(text)
  }

  /** `FooterLinkSmall`: the same rule as `LinkOrText`, with the caption as text. */
  function FooterLinkSmall(href: Option<string>, caption: string): (r: Rendered)
    ensures r.NextLink? <==> Truthy(href)
    ensures r.NextLink? ==> r == NextLink(href.value, caption)
    ensures !r.NextLink? ==> r == AriaDisabledText(caption)
  {
    LinkOrText(href, caption)
  }

  /** `SocialButton`: a new-tab anchor when `href` is truthy, otherwise a disabled button. */
  function SocialButton(caption: string, href: Option<string>): (r: Rendered)
    ensures r.ExternalAnchor? <==> Truthy(href)
    ensures r.ExternalAnchor? ==> r == ExternalAnchor(href.value, caption)
    ensures !r.ExternalAnchor? ==> r == DisabledButton(caption, caption + " link unavailable")
  {
    if Truthy(href) then ExternalAnchor(href.value, caption)
    else DisabledButton(caption, caption + " link unavailable")
  }

  /** An empty href counts as absent in every slot. */
  lemma EmptyHrefIsAbsent(text: string)
    ensures LinkOrText(Some(""), text) == LinkOrText(None, text)
    ensures SocialButton(text, Some("")) == SocialButton(text, None)
  {
  }
}
