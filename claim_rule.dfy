/**
  The selection rule `checkAndClaim` applies on every poll, stated over plain
  data: the page body's visible text and the visible text of each `<button>`
  in document order. The rule picks at most one button to click.
 */
module ClaimRule {
  import opened JsString

  datatype Option<T> = None | Some(value: T)

  /** Text whose presence in the page body means there is nothing to do. */
  const NoCampaignsMarker: string := "No campaigns available"

  /** Texts of buttons that are always on the page and are never offers. */
  const StaticButtonMarkers: seq<string> :=
    ["Request Faucet", "Launch Boost", "Raise Dispute", "Permit USDC", "Join on Telegram", "Sign out"]

  /** The keywords that mark a button as a claim button. */
  const ClaimKeywords: seq<string> := ["Claim"]

  /** The button is one of the known static buttons and is skipped. */
  predicate IsStaticButton(text: string)
    ensures IsStaticButton(text) <==> exists m :: m in StaticButtonMarkers && Includes(text, m)
  {
    StaticMarkersListed(text);
    Includes(text, "Request Faucet") ||
    Includes(text, "Launch Boost") ||
    Includes(text, "Raise Dispute") ||
    Includes(text, "Permit USDC") ||
    Includes(text, "Join on Telegram") ||
    Includes(text, "Sign out")
  }

  /** The six-way test of `IsStaticButton` is a test against each of `StaticButtonMarkers`. */
  lemma StaticMarkersListed(text: string)
    ensures (exists m :: m in StaticButtonMarkers && Includes(text, m)) <==>
              Includes(text, StaticButtonMarkers[0]) || Includes(text, StaticButtonMarkers[1]) ||
              Includes(text, StaticButtonMarkers[2]) || Includes(text, StaticButtonMarkers[3]) ||
              Includes(text, StaticButtonMarkers[4]) || Includes(text, StaticButtonMarkers[5])
  {
    assert forall m :: m in StaticButtonMarkers ==> exists i :: 0 <= i < 6 && m == StaticButtonMarkers[i];
  }

  /** The button's text carries one of the claim keywords. */
  predicate HasClaimKeyword(text: string)
    ensures HasClaimKeyword(text) <==> Includes(text, "Claim")
  {
    assert forall k :: k in ClaimKeywords <==> k == "Claim";
    SomeIncluded(text, ClaimKeywords)
  }

  /** The button would be clicked if the scan reached it. */
  predicate Qualifies(text: string)
    ensures Qualifies(text) <==>
              (forall m :: m in StaticButtonMarkers ==> !Includes(text, m)) && Includes(text, "Claim")
  {
    !IsStaticButton(text) && HasClaimKeyword(text)
  }

  /** Reference definition: `i` is the first qualifying button. */
  ghost predicate IsFirstQualifying(texts: seq<string>, i: int)
  {
    0 <= i < |texts| && Qualifies(texts[i]) &&
    forall j :: 0 <= j < i ==> !Qualifies(texts[j])
  }

  /** The scan of buttons `from`, `from + 1`, ... up to the first one that qualifies. */
  function FirstQualifying(texts: seq<string>, from: nat): (r: Option<nat>)
    requires from <= |texts|
    ensures r.Some? ==> from <= r.value < |texts| && Qualifies(texts[r.value])
    ensures r.Some? ==> forall j :: from <= j < r.value ==> !Qualifies(texts[j])
    ensures r.None? ==> forall j :: from <= j < |texts| ==> !Qualifies(texts[j])
    decreases |texts| - from
  {
    if from == |texts| then None
    else if Qualifies(texts[from]) then Some(from)
    else FirstQualifying(texts, from + 1)
  }

  /**
    The index of the button one tick clicks, or None when it clicks nothing:
    nothing when the body reports no campaigns, otherwise the first button
    that is not static and has a claim keyword.
   */
  function Select(body: string, texts: seq<string>): (r: Option<nat>)
    ensures Includes(body, NoCampaignsMarker) ==> r == None
    ensures r.Some? ==> IsFirstQualifying(texts, r.value)
    ensures r.None? && !Includes(body, NoCampaignsMarker) ==>
              forall j :: 0 <= j < |texts| ==> !Qualifies(texts[j])
  {
    if Includes(body, NoCampaignsMarker) then None
    else FirstQualifying(texts, 0)
  }

  /** Select agrees with the reference definition, in both directions. */
  lemma SelectIsFirstQualifying(body: string, texts: seq<string>, i: int)
    ensures Select(body, texts) == Some(i) <==>
              !Includes(body, NoCampaignsMarker) && IsFirstQualifying(texts, i)
  {
  }

  /** Select clicks nothing exactly when the body reports no campaigns or no button qualifies. */
  lemma SelectNoneIff(body: string, texts: seq<string>)
    ensures Select(body, texts) == None <==>
              Includes(body, NoCampaignsMarker) ||
              forall j :: 0 <= j < |texts| ==> !Qualifies(texts[j])
  {
    var r := Select(body, texts);
    if r.Some? {
      assert Qualifies(texts[r.value]);
    }
  }

  /** A body that reports no campaigns means no click, whatever buttons exist. */
  lemma NoCampaignsNoClick(a: string, b: string, texts: seq<string>)
    ensures Select(a + NoCampaignsMarker + b, texts) == None
  {
    IncludesInContext(a, NoCampaignsMarker, b, NoCampaignsMarker);
    IncludesSlice(NoCampaignsMarker, 0, |NoCampaignsMarker|);
    assert NoCampaignsMarker[0..|NoCampaignsMarker|] == NoCampaignsMarker;
  }

  /**
    A button whose text contains a static marker never qualifies, even if it
    also contains "Claim": the exclusion is tested before the keyword.
   */
  lemma StaticMarkerExcludes(a: string, m: string, b: string)
    requires m in StaticButtonMarkers
    ensures IsStaticButton(a + m + b)
    ensures !Qualifies(a + m + b)
  {
    IncludesSlice(m, 0, |m|);
    assert m[0..|m|] == m;
    IncludesInContext(a, m, b, m);
  }

  /** So a button with a static marker is never the one selected. */
  lemma StaticButtonNeverSelected(body: string, texts: seq<string>, i: nat, a: string, m: string, b: string)
    requires i < |texts| && texts[i] == a + m + b && m in StaticButtonMarkers
    ensures Select(body, texts) != Some(i)
  {
    StaticMarkerExcludes(a, m, b);
  }

  /** A lower-case "claim" is not the keyword. */
  lemma LowerCaseClaimLacksKeyword()
    ensures !HasClaimKeyword("claim now")
  {
    FirstCharAbsent("claim now", "Claim");
  }

  /** "Claim Offer" is not static and carries the keyword. */
  lemma ClaimOfferQualifies()
    ensures Qualifies("Claim Offer")
  {
    IncludesSlice("Claim Offer", 0, 5);
    assert "Claim Offer"[0..5] == "Claim";
    NotStaticWithoutMarkerInitials("Claim Offer");
  }

  /** A text in which no static marker's first letter appears is not static. */
  lemma NotStaticWithoutMarkerInitials(text: string)
    requires 'R' !in text && 'L' !in text && 'P' !in text && 'J' !in text && 'S' !in text
    ensures !IsStaticButton(text)
  {
    FirstCharAbsent(text, "Request Faucet");
    FirstCharAbsent(text, "Launch Boost");
    FirstCharAbsent(text, "Raise Dispute");
    FirstCharAbsent(text, "Permit USDC");
    FirstCharAbsent(text, "Join on Telegram");
    FirstCharAbsent(text, "Sign out");
  }

  /** A lower-case "claim now" button is passed over in favour of a later "Claim Offer". */
  lemma LowerCaseClaimIsPassedOver(body: string)
    requires !Includes(body, NoCampaignsMarker)
    ensures Select(body, ["claim now", "Claim Offer"]) == Some(1)
  {
    LowerCaseClaimLacksKeyword();
    ClaimOfferQualifies();
    var texts := ["claim now", "Claim Offer"];
    assert IsFirstQualifying(texts, 1);
    SelectIsFirstQualifying(body, texts, 1);
  }

  /**
    The scan stops at the selected button: whatever buttons follow it, and
    whatever they say, the same button is selected.
   */
  lemma LaterButtonsIgnored(body: string, texts: seq<string>, more: seq<string>)
    requires Select(body, texts).Some?
    ensures Select(body, texts + more) == Select(body, texts)
  {
    var i := Select(body, texts).value;
    assert IsFirstQualifying(texts + more, i) by {
      forall j | 0 <= j < i ensures !Qualifies((texts + more)[j]) {
        assert (texts + more)[j] == texts[j];
      }
    }
    SelectIsFirstQualifying(body, texts + more, i);
  }

  /**
    A button that does not qualify (static, or without the keyword) is passed
    over and the scan goes on with the next one; one that qualifies ends it.
   */
  lemma ScanStep(body: string, t: string, rest: seq<string>)
    requires !Includes(body, NoCampaignsMarker)
    ensures Qualifies(t) ==> Select(body, [t] + rest) == Some(0)
    ensures !Qualifies(t) ==>
              Select(body, [t] + rest) ==
                (match Select(body, rest)
                 case None => None
                 case Some(i) => Some(i + 1))
  {
    var texts := [t] + rest;
    if Qualifies(t) {
      SelectIsFirstQualifying(body, texts, 0);
    } else {
      match Select(body, rest)
      case None =>
        SelectNoneIff(body, rest);
        forall j | 0 <= j < |texts| ensures !Qualifies(texts[j]) {
          if j > 0 { assert texts[j] == rest[j - 1]; }
        }
        SelectNoneIff(body, texts);
      case Some(i) =>
        assert IsFirstQualifying(texts, i + 1) by {
          assert texts[i + 1] == rest[i];
          forall j | 0 <= j < i + 1 ensures !Qualifies(texts[j]) {
            if j > 0 { assert texts[j] == rest[j - 1]; }
          }
        }
        SelectIsFirstQualifying(body, texts, i + 1);
    }
  }
}
