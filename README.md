# Tunnl.io offer monitor: the claim rule of `checkAndClaim`

The bot keeps a browser page on the Tunnl.io campaign listing and, once a
second, runs `checkAndClaim` (bot.js:59-104). One run is a *tick*:

1. It reads the body's visible text. If that text contains
   `"No campaigns available"`, the tick ends and nothing is clicked.
2. Otherwise it lists every `button` on the page and walks them in document
   order. For each it reads the button's `innerText` and its `outerHTML`.
3. A button whose text contains one of six static markers (`"Request Faucet"`,
   `"Launch Boost"`, `"Raise Dispute"`, `"Permit USDC"`, `"Join on Telegram"`,
   `"Sign out"`) is skipped.
4. The first remaining button whose text contains `"Claim"` (case-sensitive)
   is clicked, and the tick ends. Other buttons are passed over.
5. Any error raised by these browser calls is caught inside the tick and
   logged. It ends the tick and never escapes it.

The project has three modules:

- `JsString` (js_string.dfy): JavaScript's `String.prototype.includes` as the
  recursive function `Includes`, proved equal to "the pattern occurs at some
  position". `Array.prototype.some` over patterns is `SomeIncluded`.
- `ClaimRule` (claim_rule.dfy): the rule over plain data. `Select(body, texts)`
  returns the index of the button to click, or `None`. It is proved equal to
  an independent definition, the first qualifying index (`IsFirstQualifying`).
- `Tick` (tick.dfy): the tick over a page snapshot in which every browser
  call can fail (`Read<T>` is `Ok(value)` or `Threw(message)`). `Tick(page)`
  is the specification function. `CheckAndClaim` is the same logic written as
  the source's `for…of` loop with `continue` and early `return`, proved equal
  to `Tick`. It also reports the indices it called `click()` on.
  `TickFollowsSelect` shows that a tick does exactly what `Select` says
  when the body and the button list read, every button's two reads succeed
  (also those of buttons after the one clicked, which the tick never reads,
  since `Select` takes every text), and clicking the first qualifying button
  succeeds. A `click()` that would fail on any other button does not matter.
  For pages whose later buttons cannot be read, `TickIgnoresLaterButtons`
  shows that those buttons do not change the outcome.

bot.js has no reward parsing, no reward threshold, no filter for "past" or
"unable to claim" cards, no `busy` flag against overlapping ticks, no periodic
refresh and no navigation back to the listing, so the model has none of them
either. All of its marker and keyword tests are case-sensitive `includes`
calls, and so are the model's.

## Model

| member | source | states |
|---|---|---|
| JsString.Includes | bot.js:63 | `s.includes(p)` is true exactly when `p` occurs at some position of `s` |
| JsString.SomeIncluded | bot.js:92-93 | `ks.some(k => s.includes(k))` is true exactly when some pattern of `ks` occurs in `s` |
| ClaimRule.IsStaticButton | bot.js:80-86 | a button is static exactly when its text contains one of the six markers in `StaticButtonMarkers` |
| ClaimRule.HasClaimKeyword | bot.js:92-93 | the keyword test is exactly the case-sensitive test for the substring "Claim" |
| ClaimRule.Qualifies | bot.js:80-93 | a button qualifies for a click exactly when its text contains none of the six markers and contains "Claim" |
| ClaimRule.FirstQualifying | bot.js:75-100 | the scan from a position returns the first qualifying index from there on, with every button before it not qualifying; it returns None only if none of the remaining buttons qualifies |
| ClaimRule.Select | bot.js:62-100 | no click when the body reports no campaigns; a selected index is the first button that is not static and has the keyword; None otherwise means no button qualifies |
| ClaimRule.SelectIsFirstQualifying | bot.js:74-98 | Select returns `Some(i)` if and only if the body does not report no campaigns and `i` is the first qualifying button |
| ClaimRule.SelectNoneIff | bot.js:62-100 | Select clicks nothing if and only if the body reports no campaigns or no button qualifies |
| ClaimRule.NoCampaignsNoClick | bot.js:62-69 | any body containing "No campaigns available" yields no click, whatever the buttons |
| ClaimRule.StaticMarkerExcludes | bot.js:80-87 | a text containing any of the six static markers is static and never qualifies, even if it also contains "Claim" |
| ClaimRule.StaticButtonNeverSelected | bot.js:80-93 | a button whose text contains a static marker is never the selected one |
| ClaimRule.LowerCaseClaimLacksKeyword | bot.js:92-93 | "claim now" (lower case) does not pass the keyword test |
| ClaimRule.ClaimOfferQualifies | bot.js:80-93 | "Claim Offer" is not static and has the keyword |
| ClaimRule.LowerCaseClaimIsPassedOver | bot.js:75-98 | for every body without "No campaigns available", given buttons "claim now" then "Claim Offer", the second one is selected |
| ClaimRule.LaterButtonsIgnored | bot.js:95-98 | once a button is selected, appending any further buttons does not change the selection |
| ClaimRule.ScanStep | bot.js:86-99 | a qualifying first button is selected; a non-qualifying one is passed over and the selection is that of the remaining buttons, shifted by one |
| Tick.ScanFrom | bot.js:75-100 | the scan never reports "no campaigns"; a click is at the first qualifying button, after every earlier button was read and passed over; a failure names a call on a reached button that raised that error; the end means every button was passed over |
| Tick.Tick | bot.js:59-104 | "no campaigns" exactly when the body was read and contains the marker; a click only at the first qualifying button with all earlier calls successful; a failure is the first call that raised, with its message |
| Tick.ClicksPerformed | bot.js:93-98 | a tick calls `click()` at most once |
| Tick.CheckAndClaim | bot.js:59-104 | the loop with `continue` and early `return` ends exactly as `Tick` says, and calls `click()` only on the button it reports |
| Tick.TickDeterminedByPage | bot.js:59-104 | the converse of Tick's contract: first qualifying button clicked, all buttons passed over, or a first failing call each fixes the outcome |
| Tick.TickFollowsSelect | bot.js:60-103 | when the body, the button list and every button's two texts read without error and clicking the first qualifying button succeeds, the tick ends in "no campaigns", a click of the index Select gives, or "no claim button" when Select gives None |
| Tick.ScanIgnoresLaterButtons | bot.js:95-98 | a scan that clicked or failed never reads the buttons after that point: appending buttons leaves its outcome unchanged |
| Tick.TickIgnoresLaterButtons | bot.js:74-98 | the same for a whole tick whose body and button list were read |
| Tick.NoCampaignsClicksNothing | bot.js:62-69 | with the marker in the body the tick ends in "no campaigns" and clicks nothing, even if listing the buttons would fail |
| Tick.AtMostOneClick | bot.js:93-98 | every tick clicks at most one button, and only a reached qualifying one |

## Left out

- `startBot` (bot.js:5-44): the Chrome path check, browser launch, the persistent profile and the first navigation are process and browser I/O.
- The browser calls (`page.evaluate`, `page.$$`, `button.click`) are inputs of the model: each is the value it returns or the error it raises, fixed for the tick. The model does not capture the page changing during a tick.
- The `outerHTML` read (bot.js:77): its value is never used, so only the chance that it raises an error is modelled.
- The 10-second wait after a click (bot.js:97) and the once-a-second `setInterval` polling (bot.js:107): timing and concurrency. There is no guard against overlapping ticks in the code, and the model claims none.
- `claimButtonSelectors` (bot.js:53-56) is declared but never used.
- Console logging, including the log line for each non-static button (bot.js:89) and the error log (bot.js:102).
- debug_launch.js: a launch-and-close check with no logic of its own.
- Strings are sequences of Dafny `char`. The model does not capture JavaScript's UTF-16 code units or how the browser computes `innerText`.
