/**
  One poll of `checkAndClaim`: read the page body, stop if it reports no
  campaigns, otherwise walk the page's buttons in document order, skip the
  static ones, click the first one with a claim keyword and stop. Every
  interaction with the browser may raise an error; the tick catches it and
  ends, so an error never escapes the tick.
 */
module Tick {
  import opened JsString
  import opened ClaimRule

  /** What one call into the browser gives back: a value, or the message of the error it raised. */
  datatype Read<T> = Ok(value: T) | Threw(message: string)

  /**
    A `<button>` handle as the tick meets it: what reading its `innerText`,
    reading its `outerHTML` and clicking it would each give.
   */
  datatype Button = Button(innerText: Read<string>, outerHtml: Read<string>, click: Read<()>)

  /** The page as one tick sees it: the body's `innerText` and the list of `button` elements. */
  datatype Page = Page(bodyText: Read<string>, buttons: Read<seq<Button>>)

  /** The browser call at which a tick can fail. */
  datatype Step = ReadBody | ListButtons | ReadText(index: nat) | ReadHtml(index: nat) | Click(index: nat)

  /** How one tick ends. */
  datatype Outcome =
    | NoCampaigns                         // the body reports no campaigns
    | Clicked(index: nat)                 // this button was clicked
    | NoClaimButton                       // every button was passed over
    | Failed(step: Step, message: string) // an error was caught and logged

  /** Both reads of the button's texts succeed. */
  ghost predicate Readable(b: Button)
  {
    b.innerText.Ok? && b.outerHtml.Ok?
  }

  /** Buttons `from` up to `upto` were read without error and none of them qualified. */
  ghost predicate PassedOver(bs: seq<Button>, from: nat, upto: nat)
    requires from <= upto <= |bs|
  {
    forall j :: from <= j < upto ==> Readable(bs[j]) && !Qualifies(bs[j].innerText.value)
  }

  /** Scanning from `from`, the scan reaches button `i` (or the end, when `i == |bs|`). */
  ghost predicate ReachesFrom(bs: seq<Button>, from: nat, i: nat)
  {
    from <= i <= |bs| && PassedOver(bs, from, i)
  }

  /** Button `i` is read without error and qualifies for a click. */
  ghost predicate QualifyingAt(bs: seq<Button>, i: nat)
  {
    i < |bs| && Readable(bs[i]) && Qualifies(bs[i].innerText.value)
  }

  /** Which button-level call at a reached button raised `m`. */
  ghost predicate ButtonThrew(bs: seq<Button>, step: Step, m: string)
  {
    match step
    case ReadText(i) => i < |bs| && bs[i].innerText == Threw(m)
    case ReadHtml(i) => i < |bs| && bs[i].innerText.Ok? && bs[i].outerHtml == Threw(m)
    case Click(i) => QualifyingAt(bs, i) && bs[i].click == Threw(m)
    case _ => false
  }

  /**
    The `for…of` loop over the buttons, from button `from` on: each button's
    text is read, then its HTML; a static button is skipped; the first
    button with a claim keyword is clicked and ends the scan.
   */
  function ScanFrom(bs: seq<Button>, from: nat): (r: Outcome)
    requires from <= |bs|
    ensures r != NoCampaigns
    ensures r.Clicked? ==>
              ReachesFrom(bs, from, r.index) && QualifyingAt(bs, r.index) && bs[r.index].click.Ok?
    ensures r == NoClaimButton ==> ReachesFrom(bs, from, |bs|)
    ensures r.Failed? ==>
              !r.step.ReadBody? && !r.step.ListButtons? &&
              ReachesFrom(bs, from, r.step.index) && ButtonThrew(bs, r.step, r.message)
    decreases |bs| - from
  {
    if from == |bs| then NoClaimButton
    else
      match bs[from].innerText
      case Threw(m) => Failed(ReadText(from), m)
      case Ok(text) =>
        match bs[from].outerHtml
        case Threw(m) => Failed(ReadHtml(from), m)
        case Ok(_) =>
          if IsStaticButton(text) then ScanFrom(bs, from + 1)
          else if HasClaimKeyword(text) then
            match bs[from].click
            case Threw(m) => Failed(Click(from), m)
            case Ok(_) => Clicked(from)
          else ScanFrom(bs, from + 1)
  }

  /** The body was read and does not report "no campaigns", and the buttons were listed. */
  ghost predicate ScanStarts(page: Page)
  {
    page.bodyText.Ok? && !Includes(page.bodyText.value, NoCampaignsMarker) && page.buttons.Ok?
  }

  /** The call of `step` raised `m`, and every call before it succeeded. */
  ghost predicate ThrewAt(page: Page, step: Step, m: string)
  {
    match step
    case ReadBody => page.bodyText == Threw(m)
    case ListButtons =>
      page.bodyText.Ok? && !Includes(page.bodyText.value, NoCampaignsMarker) && page.buttons == Threw(m)
    case _ =>
      ScanStarts(page) && ReachesFrom(page.buttons.value, 0, step.index) &&
      ButtonThrew(page.buttons.value, step, m)
  }

  /** Button `i` is the first qualifying one, every call up to its click succeeded. */
  ghost predicate ClicksAt(page: Page, i: nat)
  {
    ScanStarts(page) && ReachesFrom(page.buttons.value, 0, i) &&
    QualifyingAt(page.buttons.value, i) && page.buttons.value[i].click.Ok?
  }

  /** Every button was read and passed over. */
  ghost predicate PassesAll(page: Page)
  {
    ScanStarts(page) && ReachesFrom(page.buttons.value, 0, |page.buttons.value|)
  }

  /** The outcome of one tick on `page`. */
  function Tick(page: Page): (r: Outcome)
    ensures r == NoCampaigns <==>
              page.bodyText.Ok? && Includes(page.bodyText.value, NoCampaignsMarker)
    ensures r.Clicked? ==> ClicksAt(page, r.index)
    ensures r == NoClaimButton ==> PassesAll(page)
    ensures r.Failed? ==> ThrewAt(page, r.step, r.message)
  {
    match page.bodyText
    case Threw(m) => Failed(ReadBody, m)
    case Ok(body) =>
      if Includes(body, NoCampaignsMarker) then NoCampaigns
      else
        match page.buttons
        case Threw(m) => Failed(ListButtons, m)
        case Ok(bs) => ScanFrom(bs, 0)
  }

  /** The button clicks a tick with outcome `o` performs, in order. */
  function ClicksPerformed(o: Outcome): (cs: seq<nat>)
    ensures |cs| <= 1
  {
    match o
    case Clicked(i) => [i]
    case Failed(Click(i), _) => [i]
    case _ => []
  }

  /**
    `checkAndClaim` as the loop it is. Returns how the tick ended and the
    indices of the buttons it called `click()` on, in order.
   */
  method CheckAndClaim(page: Page) returns (outcome: Outcome, clicks: seq<nat>)
    ensures outcome == Tick(page)
    ensures clicks == ClicksPerformed(outcome)
  {
    clicks := [];
    if page.bodyText.Threw? {
      return Failed(ReadBody, page.bodyText.message), clicks;
    }
    var noCampaigns := Includes(page.bodyText.value, NoCampaignsMarker);
    if noCampaigns {
      return NoCampaigns, clicks;
    }
    if page.buttons.Threw? {
      return Failed(ListButtons, page.buttons.message), clicks;
    }
    var buttons := page.buttons.value;
    for i := 0 to |buttons|
      invariant ScanFrom(buttons, i) == ScanFrom(buttons, 0)
      invariant clicks == []
    {
      var button := buttons[i];
      if button.innerText.Threw? {
        return Failed(ReadText(i), button.innerText.message), clicks;
      }
      var text := button.innerText.value;
      if button.outerHtml.Threw? {
        return Failed(ReadHtml(i), button.outerHtml.message), clicks;
      }
      if IsStaticButton(text) {
        continue;
      }
      if HasClaimKeyword(text) {
        clicks := clicks + [i];
        if button.click.Threw? {
          return Failed(Click(i), button.click.message), clicks;
        }
        return Clicked(i), clicks;
      }
    }
    return NoClaimButton, clicks;
  }

  /**
    The converse of Tick's contract: each way a tick can end is determined
    by the page, so whichever of these descriptions holds of the page is the
    outcome.
   */
  lemma TickDeterminedByPage(page: Page)
    ensures forall i: nat :: ClicksAt(page, i) ==> Tick(page) == Clicked(i)
    ensures PassesAll(page) ==> Tick(page) == NoClaimButton
    ensures forall step, m :: ThrewAt(page, step, m) ==> Tick(page) == Failed(step, m)
  {
  }

  /**
    The body and the button list read, every button's two reads succeed
    (also those of buttons after the one clicked, which the tick never
    reads), and clicking the first qualifying button, the only one `click()`
    is called on, succeeds. `TickIgnoresLaterButtons` covers pages whose
    later buttons cannot be read.
   */
  ghost predicate NothingThrows(page: Page)
  {
    page.bodyText.Ok? && page.buttons.Ok? &&
    (forall j :: 0 <= j < |page.buttons.value| ==> Readable(page.buttons.value[j])) &&
    forall j :: 0 <= j < |page.buttons.value| && IsFirstQualifying(Texts(page.buttons.value), j) ==>
      page.buttons.value[j].click.Ok?
  }

  /** The buttons' texts, in document order. */
  function Texts(bs: seq<Button>): (ts: seq<string>)
    requires forall j :: 0 <= j < |bs| ==> bs[j].innerText.Ok?
    ensures |ts| == |bs| && forall j :: 0 <= j < |bs| ==> ts[j] == bs[j].innerText.value
  {
    if bs == [] then [] else [bs[0].innerText.value] + Texts(bs[1..])
  }

  /**
    When no browser call raises an error, a tick ends exactly as the
    selection rule over the body text and the button texts says.
   */
  lemma TickFollowsSelect(page: Page)
    requires NothingThrows(page)
    ensures var body, bs := page.bodyText.value, page.buttons.value;
            Tick(page) ==
              if Includes(body, NoCampaignsMarker) then NoCampaigns
              else match Select(body, Texts(bs))
                   case None => NoClaimButton
                   case Some(i) => Clicked(i)
  {
    var body, bs := page.bodyText.value, page.buttons.value;
    if !Includes(body, NoCampaignsMarker) {
      var ts := Texts(bs);
      TickDeterminedByPage(page);
      match Select(body, ts)
      case None =>
        assert PassesAll(page);
      case Some(i) =>
        assert ClicksAt(page, i);
    }
  }

  /**
    The scan ends at the first button that is clicked or whose call fails:
    buttons after it are never read, so appending more buttons, whatever
    they hold, changes nothing.
   */
  lemma {:induction false} ScanIgnoresLaterButtons(bs: seq<Button>, more: seq<Button>, from: nat)
    requires from <= |bs|
    requires ScanFrom(bs, from) != NoClaimButton
    ensures ScanFrom(bs + more, from) == ScanFrom(bs, from)
    decreases |bs| - from
  {
    assert (bs + more)[from] == bs[from];
    var b := bs[from];
    if b.innerText.Ok? && b.outerHtml.Ok? && !Qualifies(b.innerText.value) {
      ScanIgnoresLaterButtons(bs, more, from + 1);
    }
  }

  /** The same, for a whole tick on a page whose body and button list were read. */
  lemma TickIgnoresLaterButtons(body: string, bs: seq<Button>, more: seq<Button>)
    requires Tick(Page(Ok(body), Ok(bs))) != NoClaimButton
    ensures Tick(Page(Ok(body), Ok(bs + more))) == Tick(Page(Ok(body), Ok(bs)))
  {
    if !Includes(body, NoCampaignsMarker) {
      ScanIgnoresLaterButtons(bs, more, 0);
    }
  }

  /**
    A body that reports no campaigns ends the tick before the buttons are
    even listed: nothing is clicked, whatever the buttons are and even if
    listing them would fail.
   */
  lemma NoCampaignsClicksNothing(body: string, buttons: Read<seq<Button>>)
    requires Includes(body, NoCampaignsMarker)
    ensures Tick(Page(Ok(body), buttons)) == NoCampaigns
    ensures ClicksPerformed(Tick(Page(Ok(body), buttons))) == []
  {
  }

  /** Whatever the page does, a tick results in at most one click, and only of a qualifying button. */
  lemma AtMostOneClick(page: Page)
    ensures |ClicksPerformed(Tick(page))| <= 1
    ensures forall i :: i in ClicksPerformed(Tick(page)) ==>
              ScanStarts(page) && ReachesFrom(page.buttons.value, 0, i) && QualifyingAt(page.buttons.value, i)
  {
  }
}
