/**
 * The two `'message'` handlers that `WhatsAppService.init` registers: the AI
 * handler, which answers any text containing `#ai` (in any letter case) with
 * the AI's reply to the text stripped of its markers, and the greeting
 * handler, which answers a bare "hi" (in any letter case).
 *
 * The AI service is an input, `ai: string -> AiOutcome`, giving what
 * `GoogleAi.chatWithAi` does for a prompt. A handler's `msg.reply(...)` is
 * its result: `Some(text)` for a reply, `None` for none.
 */
module Router {
  import opened JsString

  datatype Option<T> = None | Some(value: T)

  /** An incoming chat message: the sender id (`msg.from`) and the text (`msg.body`). */
  datatype Message = Message(from: string, body: string)

  /** What the AI call does: resolve with `response.text`, which may be undefined, or throw. */
  datatype AiOutcome = Answered(text: Option<string>) | Threw

  const Marker := "#ai"
  const Fallback := "Sorry, I couldn't process your request at the moment."
  const GreetingPrefix := "Hello! Welcome to SnapSend.ng, "
  const Greeting := "hi"

  /** `senderId.split('@')[0]` */
  function PhoneNumber(senderId: string): string {
    Before(senderId, '@')
  }

  /** The regular expression `/#ai/i` matches at the start of `s`: its first three characters equal the marker up to letter case. */
  predicate MarkerAtStart(s: string) {
    |s| >= |Marker| && ToLower(s[..|Marker|]) == Marker
  }

  /**
   * `s.replace(/#ai/gi, '')`: one left-to-right pass that deletes each match
   * and resumes after it, so it removes a multiple of three characters.
   */
  function StripMarker(s: string): (r: string)
    ensures |r| <= |s|
    ensures (|s| - |r|) % 3 == 0
  {
    if s == [] then []
    else if MarkerAtStart(s) then
      var r := StripMarker(s[|Marker|..]);
      assert |s| - |r| == (|s[|Marker|..]| - |r|) + 3;
      r
    else
      var r := StripMarker(s[1..]);
      assert |s| - |[s[0]] + r| == |s[1..]| - |r|;
      [s[0]] + r
  }

  /** `msg.body.toLowerCase().includes('#ai')` */
  predicate WantsAi(body: string) {
    Includes(ToLower(body), Marker)
  }

  /** `msg.body.replace(/#ai/gi, '').trim()` */
  function AiPrompt(body: string): string {
    Trim(StripMarker(body))
  }

  /** The text the AI handler replies with: the AI's text when it is non-empty, the apology otherwise. */
  function AiReply(outcome: AiOutcome): (r: string)
    ensures r != []
    ensures r == Fallback || outcome == Answered(Some(r))
    ensures outcome.Threw? || outcome.text.None? || outcome.text.value == [] ==> r == Fallback
    ensures outcome.Answered? && outcome.text.Some? && outcome.text.value != [] ==> r == outcome.text.value
  {
    match outcome
    case Answered(Some(text)) => if text != [] then text else Fallback
    case Answered(None) => Fallback
    case Threw => Fallback
  }

  /** The first handler (AI chat). */
  function OnAiMessage(msg: Message, ai: string -> AiOutcome): Option<string> {
    if WantsAi(msg.body) then Some(AiReply(ai(AiPrompt(msg.body)))) else None
  }

  /** The second handler (greeting): the text must be "hi" once lower-cased, with no trimming. */
  function OnGreetingMessage(msg: Message): Option<string> {
    if ToLower(msg.body) == Greeting then Some(GreetingPrefix + PhoneNumber(msg.from)) else None
  }

  function ReplyList(reply: Option<string>): seq<string> {
    match reply
    case Some(text) => [text]
    case None => []
  }

  /** Every reply the two handlers send for `msg`, in the order they are registered. */
  function Replies(msg: Message, ai: string -> AiOutcome): seq<string> {
    ReplyList(OnAiMessage(msg, ai)) + ReplyList(OnGreetingMessage(msg))
  }

  /** Lower-casing `s` and then cutting out a piece is cutting out the piece and then lower-casing it. */
  lemma ToLowerSlice(s: string, lo: int, hi: int)
    requires 0 <= lo <= hi <= |s|
    ensures ToLower(s)[lo..hi] == ToLower(s[lo..hi])
  {
  }

  /** Lower-casing finds `#ai` at `i` exactly where the case-insensitive pattern matches. */
  lemma MarkerOccursAt(s: string, i: int)
    ensures OccursAt(ToLower(s), Marker, i) <==> 0 <= i <= |s| && MarkerAtStart(s[i..])
  {
    if 0 <= i <= |s| - |Marker| {
      ToLowerSlice(s, i, i + |Marker|);
      assert s[i..][..|Marker|] == s[i..i + |Marker|];
    }
  }

  /** With no match anywhere, the replacement leaves the text alone. */
  lemma {:induction false} StripMarkerKeeps(s: string)
    requires forall i :: 0 <= i < |s| ==> !MarkerAtStart(s[i..])
    ensures StripMarker(s) == s
  {
    if s != [] {
      assert !MarkerAtStart(s[0..]);
      forall i | 0 <= i < |s| - 1 ensures !MarkerAtStart(s[1..][i..]) {
        assert s[1..][i..] == s[i + 1..];
      }
      StripMarkerKeeps(s[1..]);
    }
  }

  /** With a match at `i`, the replacement deletes something. */
  lemma {:induction false} StripMarkerShrinks(s: string, i: nat)
    requires i < |s| && MarkerAtStart(s[i..])
    ensures |StripMarker(s)| < |s|
  {
    if !MarkerAtStart(s) {
      assert i > 0;
      assert s[1..][i - 1..] == s[i..];
      StripMarkerShrinks(s[1..], i - 1);
    }
  }

  /**
   * The AI branch fires exactly when the marker replacement would change the
   * text: the detection (`toLowerCase().includes`) and the stripping
   * (`/#ai/gi`) agree on which texts carry the marker.
   */
  lemma StripMarkerChangesIffWantsAi(s: string)
    ensures StripMarker(s) != s <==> WantsAi(s)
  {
    if WantsAi(s) {
      var i :| OccursAt(ToLower(s), Marker, i);
      MarkerOccursAt(s, i);
      StripMarkerShrinks(s, i);
    } else {
      forall i | 0 <= i < |s| ensures !MarkerAtStart(s[i..]) {
        MarkerOccursAt(s, i);
      }
      StripMarkerKeeps(s);
    }
  }

  /** The marker is its own lower-case form, so it matches itself. */
  lemma MarkerMatchesItself()
    ensures ToLower(Marker) == Marker && MarkerAtStart(Marker)
  {
    assert Marker[..|Marker|] == Marker;
  }

  /** A text without '#' holds no marker: the replacement leaves it alone and the AI branch does not fire. */
  lemma {:induction false} NoHashNoMarker(s: string)
    requires '#' !in s
    ensures StripMarker(s) == s && !WantsAi(s)
  {
    forall i | 0 <= i < |s| ensures !MarkerAtStart(s[i..]) {
      if |s[i..]| >= |Marker| {
        assert ToLower(s[i..][..|Marker|])[0] == LowerChar(s[i]);
        LowerCharPreimage(s[i], '#');
      }
    }
    StripMarkerKeeps(s);
    StripMarkerChangesIffWantsAi(s);
  }

  /** No match starts at a character other than '#'. */
  lemma NotMarkerAtHashless(s: string)
    requires s != [] && s[0] != '#'
    ensures !MarkerAtStart(s)
  {
    if |s| >= |Marker| {
      assert ToLower(s[..|Marker|])[0] == LowerChar(s[0]);
      LowerCharPreimage(s[0], '#');
    }
  }

  /** A piece without '#' passes through the replacement unchanged, and the scan goes on after it. */
  lemma {:induction false} StripAfterHashless(mid: string, rest: string)
    requires '#' !in mid
    ensures StripMarker(mid + rest) == mid + StripMarker(rest)
  {
    if mid == [] {
      assert mid + rest == rest;
    } else {
      calc {
        StripMarker(mid + rest);
        { assert (mid + rest)[0] == mid[0];
          NotMarkerAtHashless(mid + rest);
          assert (mid + rest)[1..] == mid[1..] + rest; }
        [mid[0]] + StripMarker(mid[1..] + rest);
        { StripAfterHashless(mid[1..], rest); }
        [mid[0]] + (mid[1..] + StripMarker(rest));
        { assert mid == [mid[0]] + mid[1..]; }
        mid + StripMarker(rest);
      }
    }
  }

  /** A marker in any letter case at the start is deleted, and the scan resumes right after it. */
  lemma StripsLeadingMarker(tag: string, rest: string)
    requires |tag| == 3 && MarkerAtStart(tag)
    ensures StripMarker(tag + rest) == StripMarker(rest)
  {
    var s := tag + rest;
    assert s[..3] == tag && s[3..] == rest;
  }

  /** Every match goes, not just the first: two markers around a piece without '#' leave exactly that piece. */
  lemma StripsEveryMarker(tag1: string, mid: string, tag2: string)
    requires |tag1| == 3 && MarkerAtStart(tag1)
    requires |tag2| == 3 && MarkerAtStart(tag2)
    requires '#' !in mid
    ensures StripMarker(tag1 + mid + tag2) == mid
  {
    assert tag1 + mid + tag2 == tag1 + (mid + tag2);
    StripsLeadingMarker(tag1, mid + tag2);
    StripAfterHashless(mid, tag2);
    assert tag2 == tag2 + [];
    StripsLeadingMarker(tag2, []);
    assert mid + [] == mid;
  }

  /** "#ai x #AI" becomes " x ": the second marker is removed as well. */
  lemma StripsTwoMarkersExample()
    ensures StripMarker("#ai x #AI") == " x "
  {
    MarkerMatchesItself();
    CapitalMarkerMatches();
    assert '#' !in " x ";
    assert "#ai x #AI" == Marker + " x " + "#AI";
    StripsEveryMarker(Marker, " x ", "#AI");
  }

  /** Trimming leaves the marker alone, and the marker asks for the AI. */
  lemma MarkerIsPrompt()
    ensures Trim(Marker) == Marker && WantsAi(Marker)
  {
    MarkerMatchesItself();
    assert LeadingSpace(Marker) == 0 by {
      assert Marker[0] == '#';
    }
    assert TrailingSpace(Marker) == 0 by {
      assert Marker[2] == 'i';
    }
    assert Marker[0..] == Marker && Marker[..3] == Marker;
    assert OccursAt(Marker, Marker, 0);
  }

  /** The single pass over "##aiai" deletes the one match it finds and keeps the marker the deletion forms. */
  lemma OnePassLeavesMarker()
    ensures StripMarker("##aiai") == Marker
  {
    var s := "##aiai";
    assert !MarkerAtStart(s) by {
      assert ToLower(s[..3])[1] == LowerChar('#');
    }
    assert s[1..] == "#aiai" && s[1..][..3] == "#ai" && s[1..][3..] == "ai";
    MarkerMatchesItself();
    NoHashNoMarker("ai");
  }

  /** One pass can leave a marker behind: "##aiai" becomes "#ai", which still triggers the AI branch. */
  lemma MarkerCanSurviveStripping()
    ensures WantsAi("##aiai")
    ensures AiPrompt("##aiai") == Marker && WantsAi(AiPrompt("##aiai"))
  {
    OnePassLeavesMarker();
    MarkerIsPrompt();
    StripMarkerChangesIffWantsAi("##aiai");
  }

  /**
   * A text that starts with the marker, in any letter case, and has none
   * after it triggers the AI branch, and the AI is asked about the rest,
   * trimmed.
   */
  lemma LeadingMarkerStripped(tag: string, rest: string)
    requires |tag| == 3 && MarkerAtStart(tag)
    requires !WantsAi(rest)
    ensures WantsAi(tag + rest)
    ensures AiPrompt(tag + rest) == Trim(rest)
  {
    var body := tag + rest;
    assert body[0..] == body && body[..3] == tag && body[3..] == rest;
    MarkerOccursAt(body, 0);
    StripMarkerChangesIffWantsAi(rest);
  }

  /** The capitalised marker matches. */
  lemma CapitalMarkerMatches()
    ensures MarkerAtStart("#AI")
  {
    assert "#AI"[..3] == "#AI";
    assert ToLower("#AI") == Marker;
  }

  /** The question after the marker loses its one leading blank when trimmed. */
  lemma QuestionTrimmed()
    ensures Trim(" what is 2+2") == "what is 2+2"
  {
    var rest, question := " what is 2+2", "what is 2+2";
    assert LeadingSpace(rest) == 1 by {
      assert rest[0] == ' ' && rest[1..][0] == 'w';
    }
    assert rest[1..] == question;
    assert TrailingSpace(question) == 0 by {
      assert question[|question| - 1] == '2';
    }
    assert question[..|question|] == question;
  }

  /** "#AI what is 2+2": the capitalised marker is detected, stripped, and the rest trimmed before it reaches the AI. */
  lemma PromptExample()
    ensures WantsAi("#AI what is 2+2")
    ensures AiPrompt("#AI what is 2+2") == "what is 2+2"
  {
    var tag, rest := "#AI", " what is 2+2";
    assert "#AI what is 2+2" == tag + rest;
    CapitalMarkerMatches();
    assert '#' !in rest;
    NoHashNoMarker(rest);
    QuestionTrimmed();
    LeadingMarkerStripped(tag, rest);
  }

  /**
   * The AI handler replies exactly when the text carries the marker; its
   * reply is then never empty: the AI's text for the stripped and trimmed
   * prompt when that text is non-empty, and the apology when it is missing
   * or empty or the AI throws.
   */
  lemma AiHandlerReply(msg: Message, ai: string -> AiOutcome)
    ensures OnAiMessage(msg, ai).Some? <==> WantsAi(msg.body)
    ensures OnAiMessage(msg, ai).Some? ==>
              var r := OnAiMessage(msg, ai).value;
              r != [] && (r == Fallback || ai(AiPrompt(msg.body)) == Answered(Some(r)))
    ensures WantsAi(msg.body) && ai(AiPrompt(msg.body)).Threw? ==> OnAiMessage(msg, ai) == Some(Fallback)
    ensures WantsAi(msg.body) && ai(AiPrompt(msg.body)) == Answered(None) ==> OnAiMessage(msg, ai) == Some(Fallback)
    ensures WantsAi(msg.body) && ai(AiPrompt(msg.body)) == Answered(Some([])) ==> OnAiMessage(msg, ai) == Some(Fallback)
    ensures forall text :: WantsAi(msg.body) && ai(AiPrompt(msg.body)) == Answered(Some(text)) && text != []
              ==> OnAiMessage(msg, ai) == Some(text)
  {
  }

  /** A text made of the marker alone gives the AI an empty prompt; if the AI throws, the apology is sent. */
  lemma MarkerOnly(from: string, ai: string -> AiOutcome)
    requires ai("") == Threw
    ensures AiPrompt("#ai") == ""
    ensures OnAiMessage(Message(from, "#ai"), ai) == Some(Fallback)
  {
    assert MarkerAtStart("#ai") && "#ai"[3..] == [];
    assert OccursAt(ToLower("#ai"), Marker, 0);
  }

  /** The greeting handler fires for "hi", "Hi", "hI" and "HI" and for no other text. */
  lemma GreetingTexts(body: string)
    ensures ToLower(body) == Greeting <==> body in {"hi", "Hi", "hI", "HI"}
  {
    if ToLower(body) == Greeting {
      assert |body| == 2;
      assert ToLower(body)[0] == 'h' && ToLower(body)[1] == 'i';
      LowerCharPreimage(body[0], 'h');
      LowerCharPreimage(body[1], 'i');
      assert body == [body[0], body[1]];
    }
  }

  /** The greeting names the sender's phone number, which holds no '@'. */
  lemma GreetingNamesSender(msg: Message)
    requires ToLower(msg.body) == Greeting
    ensures OnGreetingMessage(msg) == Some(GreetingPrefix + PhoneNumber(msg.from))
    ensures '@' !in PhoneNumber(msg.from)
    ensures msg.from == PhoneNumber(msg.from) + msg.from[|PhoneNumber(msg.from)|..]
  {
    assert msg.from[..|PhoneNumber(msg.from)|] == PhoneNumber(msg.from);
  }

  /** Surrounding white space is not trimmed, so " hi" gets no greeting. */
  lemma GreetingIsNotTrimmed(from: string)
    ensures OnGreetingMessage(Message(from, " hi")) == None
  {
    assert ToLower(" hi")[0] == ' ';
  }

  /**
   * At most one reply per message: a text that is "hi" once lower-cased is
   * too short to carry the marker. A text matching neither gets none.
   */
  lemma AtMostOneReply(msg: Message, ai: string -> AiOutcome)
    ensures |Replies(msg, ai)| <= 1
    ensures Replies(msg, ai) == [] <==> !WantsAi(msg.body) && ToLower(msg.body) != Greeting
  {
    if ToLower(msg.body) == Greeting {
      assert forall i :: !OccursAt(ToLower(msg.body), Marker, i);
    }
  }
}
