# Launch console: a verified model

The launch console (`ui/launchdeck`) keeps drafts, converts amounts and coordinates background
requests in the browser. This project models that logic and proves what it promises, module by module.

| area | modules |
|---|---|
| sniper draft: normalise, export, decode, validate, edit in a modal | `SniperDraft`, `SniperForm`, `SniperValidation`, `SniperModal`, `SniperSession`, `SniperRestore` |
| asynchronous protocols, over every interleaving | `LatestRequest`, `FollowPolling`, `TweetImages`, `WarmPresence` |
| decimal text: input fields, fixed point, market-cap shorthand, tickers | `NumericInput`, `FixedPoint`, `MarketCap`, `Ticker` |
| stored drafts | `AutoSellDraft`, `DraftStore` |
| startup action list | `ActionItems` |
| JavaScript text, numbers and coercions | `JsText`, `Digits`, `JsValues`, `Common` |

Objects the console updates in place are classes (`SniperFeature`, `RequestState`, `FollowRefresh`,
`ImageRow`, `Presence`, `LocalStorage`). Each of their methods is proved to change its object's view
exactly as one step of a state machine says, and the safety results are about all runs of that machine.
An asynchronous function is split at its awaits into steps that may be interleaved freely.

## What turned out not to hold

For each of these the code is modelled as it is, and the exact condition under which it keeps its
promise is proved.

- Restoring a sniper form gives an empty market-cap timeout back as one second, and switches off an
  enabled form without entries (`SniperForm.CodecRoundTrip`; failing states in `SniperForm.TimeoutLost` and
  `SniperForm.EnabledLost`).
- A shown market-cap threshold can read back as more than was saved: below one dollar its bare
  millionths are taken for dollars, and a fraction of fifty cents or more is rounded up
  (`MarketCap.ReadBackWithin`). Showing the read value again gives another text for a value with a
  fraction, and below one dollar for a thousand millionths or more (`MarketCap.ShownTextStableExactly`).
- Zero percent comes back from token units as the empty string (`FixedPoint.PercentSurvives`).
- A sell delay that arrives as the text "Infinity" is lost by the draft store
  (`AutoSellDraft.DraftSurvivesStore`, `AutoSellDraft.InfiniteDelay`); the form itself clamps the delay.
- A report reply that is not ok skips the deadline, so a chain can make more than 60 polls, without
  limit, if and only if such replies occur (`FollowPolling.SixtyPolls`, `FollowPolling.FailingPolls`).
- An upload is known by its candidate's id alone. When a library image is replaced, keeping its id, while
  its entry is being uploaded, the old image is installed for the new entry
  (`TweetImages.ReplacedDuringUpload`, `TweetImages.InstallsOwnSourceExactly`).
- While the sniper modal is open, an edit that renders writes the unsaved draft to the form if and only
  if the draft holds the deployer's own wallet (`SniperSession.FormHeldWhileOpen`); a run that leaves the
  form switched on with nothing saved is `SniperSession.UnsavedDraftInForm`.
- Hydrating without a stored draft falls back to the saved settings, so a reset draft comes back if they
  hold a selected wallet that buys something (`SniperRestore.StoredRestoresForm`,
  `SniperRestore.ResetComesBack`).
- Hydrating from the form alone gives back the draft itself only if every wallet of it buys and has, in the
  fields its modes hide, the values decoding fills in (`SniperRestore.HydratesDraftExactly`); a wallet that just buys does not
  (`SniperRestore.PlainBuyerChanged`).

Two printers are given on all integers although the modelled code only prints amounts that are not
negative: negative ones do not parse back, and their fractions are spelled differently
(`FixedPoint.FormatInverse`, `FixedPoint.PrintersAgree`).

A caller of the latest-wins fetch that keeps no serial of its own relies on the event loop: it never
applies a superseded result as long as every caller continues before another request starts, which
microtasks ensure when each task settles one request (`LatestRequest.NeverSupersededExactly`).

## Assumptions

- Numbers are exact: `Number` arithmetic is over the reals with infinities and NaN, without IEEE
  rounding; `BigInt` is `int`. Text to number follows section 7.1.4.1 of ECMA-262.
- A raw JavaScript value is the record of what the code asks of it: truthiness, nullishness, its text
  and its number. The normaliser results hold for any combination of these.
- Object keys are kept in insertion order; integer-like keys, which JavaScript would list first, do not
  occur among wallet names.
- JSON leaves plain data unchanged, except that an infinite number becomes null. Storage calls succeed.
- A callback of a fetch or timer runs to its end before another one starts. Callers of the latest-wins
  fetch resume in the order in which their requests settled.
- A repeating browser timer is due again one period after it fired.
- Upper-casing works on one code point at a time, keeps white space and leaves its own results alone.

## Model

The rows of class methods connect the code's updates to the steps of the state machines; the results over
runs are the lemmas.

| member | source | states |
|---|---|---|
| NumericInput.AcceptsExactly | ui/launchdeck/shared-constants.js:37-58 | a field is accepted if and only if its body reads as an unambiguous decimal within the decimal limit |
| NumericInput.KeepsValue | ui/launchdeck/shared-constants.js:49-57 | an accepted field keeps its number, a lone comma read as the point, and its suffix; no redundant leading zero; the decimal limit holds |
| NumericInput.Idempotent | ui/launchdeck/shared-constants.js:37-58 | normalising twice under the same options is normalising once, for every text |
| NumericInput.NormalizeInversion | ui/launchdeck/shared-constants.js:43-57 | every accepted body splits into whole and fraction digits, and the output is spelled from them |
| NumericInput.AmbiguousExactly | ui/launchdeck/shared-constants.js:48-48 | the ambiguous bodies are one to three digits, a comma and three digits, but for a lone zero before the comma |
| NumericInput.SpacesIgnored | ui/launchdeck/shared-constants.js:38-38 | white space anywhere in a field is ignored |
| FixedPoint.ParseOfFormat | ui/launchdeck/app.js:2700-2724 | printing m of d fraction digits and parsing back drops exactly the remainder modulo 10^(d-m) |
| FixedPoint.FormatInverse | ui/launchdeck/app.js:2700-2724 | a printed integer parses back to itself if and only if it is not negative |
| FixedPoint.FormatOfParse | ui/launchdeck/app.js:2700-2724 | printing a parsed text gives its canonical spelling, without redundant zeros at either end |
| FixedPoint.ParseInversion | ui/launchdeck/app.js:2700-2712 | an accepted text is digits, or digits around a point with at most d places, and its value is those digits scaled |
| FixedPoint.PercentSurvives | ui/launchdeck/app.js:3358-3380 | a percentage of at most four places comes back from tokens in canonical spelling if and only if it is not zero |
| FixedPoint.PercentBack | ui/launchdeck/app.js:3362-3380 | what percent to tokens to percent yields for every accepted percentage and both token scales |
| FixedPoint.TokensFloor | ui/launchdeck/app.js:3358-3380 | tokens to percent to tokens loses exactly the remainder modulo 10^(3+decimals) |
| FixedPoint.SolFloors | ui/launchdeck/sniper-feature.js:233-244 | a decimal with a point or comma reads as its lamports, digits beyond nine floored away |
| FixedPoint.ParsersAgree | ui/launchdeck/sniper-feature.js:233-244 | the SOL parser gives the strict parser's value on every text the strict parser accepts at nine decimals |
| FixedPoint.ParsersOnNormalized | ui/launchdeck/sniper-feature.js:233-244 | on a normalised amount the SOL parser is exact, and both parsers agree unless the text ends in its point, which only the strict one rejects |
| FixedPoint.PrintersAgree | ui/launchdeck/sniper-feature.js:246-254 | the two printers agree if and only if the amount is not negative or is a whole number of SOL |
| FixedPoint.SolInverse | ui/launchdeck/sniper-feature.js:233-254 | the SOL parser inverts the SOL printer |
| FixedPoint.SolRejects | ui/launchdeck/sniper-feature.js:233-244 | a text with two separators, or with another character than digits and separators, reads as 0 |
| FixedPoint.PaddedDecimal | ui/launchdeck/app.js:2700-2712 | space around a decimal does not matter to either parser |
| FixedPoint.NegativePrinted | ui/launchdeck/app.js:2714-2724 | a negative amount is printed as a minus and the amount |
| MarketCap.SavedThresholdReadBack | ui/launchdeck/app.js:2144-2172 | what the shown text of any saved threshold reads back as, sub-dollar and fractional values included |
| MarketCap.ReadBackWithin | ui/launchdeck/app.js:2144-2172 | a saved threshold reads back as no more than was saved if and only if it is a dollar or more with a fraction below fifty cents |
| MarketCap.KeptBounds | ui/launchdeck/app.js:2151-2165 | whole dollars never read back as more and lose less than a tenth, less than a hundredth when a hundred units or more are shown |
| MarketCap.ShownTextStable | ui/launchdeck/app.js:2144-2172 | for whole dollars, showing the parsed value again gives the same text, and reading it again the same value |
| MarketCap.ShownTextStableExactly | ui/launchdeck/app.js:2144-2172 | for every saved value, what its text reads back as is shown by the same text if and only if whole dollars were saved, or fewer than a thousand millionths without redundant zeros |
| MarketCap.ParseOfDollars | ui/launchdeck/auto-sell-feature.js:117-138 | parsing a shown dollar amount yields the dollars its suffix keeps |
| MarketCap.ParseDigits | ui/launchdeck/auto-sell-feature.js:117-138 | digits, a fraction of up to six digits and a suffix read as their product, rounded; zero is rejected |
| MarketCap.GroupedReads | ui/launchdeck/auto-sell-feature.js:106-138 | a number grouped by thousands commas, with or without fraction and suffix, reads as the ungrouped one |
| MarketCap.GroupedExactly | ui/launchdeck/auto-sell-feature.js:106-115 | commas are removed exactly from one to three digits followed by groups of three, with an optional fraction |
| MarketCap.PointRejected | ui/launchdeck/auto-sell-feature.js:117-138 | a number that ends in its point is no threshold |
| MarketCap.ShownAsTyped | ui/launchdeck/app.js:2144-2146 | a text that is not all digits is shown as it is, trimmed |
| Ticker.ClipUtf8Bytes | ui/launchdeck/app.js:3484-3499 | the accumulating loop computes the longest prefix of code points within the byte limit |
| Ticker.ClipExact | ui/launchdeck/app.js:3480-3499 | a prefix fits if and only if it is no longer than the clipped text; the bytes are cut between two characters |
| Ticker.ClipTwice | ui/launchdeck/app.js:3484-3499 | clipping is idempotent |
| Ticker.CharShape | ui/launchdeck/app.js:3480-3482 | a code point takes one to four bytes as section 3 of RFC 3629 lays them out, and they decode to it, a lone surrogate to U+FFFD |
| Ticker.TidyExact | ui/launchdeck/app.js:3501-3503 | collapsing white space keeps the words and leaves alone exactly the texts with single inner spaces |
| Ticker.FormatSettles | ui/launchdeck/app.js:3501-3506 | a formatted ticker is tidy, upper case if asked, within the limit, and a fixpoint of formatting |
| SniperDraft.NormalizedInRange | ui/launchdeck/sniper-feature.js:69-140 | any raw wallet normalises to fields in range |
| SniperDraft.WalletStable | ui/launchdeck/sniper-feature.js:122-140 | normalising a wallet in range changes nothing |
| SniperDraft.DraftStable | ui/launchdeck/sniper-feature.js:142-155 | normalising a draft is idempotent on arbitrary input |
| SniperDraft.ModeLaw | ui/launchdeck/sniper-feature.js:69-128 | which buy mode, sell mode, threshold and timeout action any raw wallet gets, missing and unknown ones included |
| SniperDraft.WholeNumbers | ui/launchdeck/sniper-feature.js:77-137 | whole numbers are kept within 1500 ms, 37 and 23 blocks and 1 to 86400 seconds |
| SniperDraft.NoNumber | ui/launchdeck/sniper-feature.js:77-116 | what is no number leaves the timeout empty and the bounded fields 0 |
| SniperDraft.SellPercentLaw | ui/launchdeck/sniper-feature.js:95-100 | a sell percentage is kept if and only if it reads as a whole number from 1 to 100 |
| SniperDraft.PlainFields | ui/launchdeck/sniper-feature.js:122-133 | the switches are kept as truth values and the amount as the normalised text |
| SniperDraft.WalletsLaw | ui/launchdeck/sniper-feature.js:142-149 | every wallet with a key is normalised, in order; a null one counts as a new one |
| SniperDraft.SwitchLaw | ui/launchdeck/sniper-feature.js:150-154 | a draft is on if and only if it was switched on and a wallet of it is selected |
| SniperForm.ReexportWallet | ui/launchdeck/app.js:4515-4540 | an exported wallet decoded and normalised exports as itself, an empty timeout turned to one second |
| SniperForm.DecodeAllIsList | ui/launchdeck/app.js:4515-4540 | with distinct keys the reduce lists every keyed entry in order |
| SniperForm.HydrateForm | ui/launchdeck/app.js:4513-4547 | what the form shows after exporting, decoding, `setState` and exporting again |
| SniperForm.FormLaw | ui/launchdeck/sniper-feature.js:396-488 | the form lists, in order, the export of every selected wallet whose amount is above zero, and nothing else |
| SniperForm.CodecRoundTrip | ui/launchdeck/sniper-feature.js:396-496 | the round trip reproduces the form if and only if every entry has a key and no empty timeout, and an enabled form has an entry |
| SniperForm.TimeoutLost | ui/launchdeck/app.js:4536-4538 | a market-cap seller without a timeout comes back with one second |
| SniperForm.EnabledLost | ui/launchdeck/app.js:4513-4547 | an enabled draft without wallets comes back switched off |
| SniperValidation.ValidateState | ui/launchdeck/sniper-feature.js:797-859 | the pushing loop returns the errors of all selected wallets in order |
| SniperValidation.EntryClean | ui/launchdeck/sniper-feature.js:803-857 | a normalised wallet draws no error if and only if it is ready; the range errors cannot occur |
| SniperValidation.ExportInRange | ui/launchdeck/sniper-feature.js:396-435 | every exported wallet has trigger and sell fields in range and consistent with its modes |
| SniperValidation.ValidationExact | ui/launchdeck/sniper-feature.js:797-859 | no errors if and only if sniping is off, or some wallet is selected and all selected ones are ready |
| SniperValidation.ValidationSound | ui/launchdeck/sniper-feature.js:797-859 | with sniping on and no errors the form lists every selected wallet, each affordable, in range and not the deployer, with strategy snipe-own-launch |
| SniperValidation.ValidationFromStatus | ui/launchdeck/sniper-feature.js:262-340 | from the raw status: no errors if and only if sniping is off, or a wallet is selected and for each one the first runtime wallet of its key is usable, not the deployer, and its balance less the fee reserve covers the amount up to a millionth, with market-cap fields where needed |
| SniperValidation.ComplaintLaw | ui/launchdeck/sniper-feature.js:321-340 | which single error a normalised entry draws, in every case |
| SniperValidation.RangeLaw | ui/launchdeck/sniper-feature.js:820-856 | the range errors, for an entry of any origin |
| SniperModal.SniperFeature.CommitState | ui/launchdeck/sniper-feature.js:212-218 | committing snapshots the normalised draft in a new object, exports the form and stores the draft |
| SniperModal.SniperFeature.RestoreCommittedState | ui/launchdeck/sniper-feature.js:220-225 | restoring makes a new draft object from the snapshot and re-derives the form |
| SniperModal.SniperFeature.RenderUI | ui/launchdeck/sniper-feature.js:602-616 | rendering writes the form while the modal is closed and deselects the deployer's wallet |
| SniperModal.SniperFeature.SetWalletPatch | ui/launchdeck/sniper-feature.js:783-795 | a patch merges over the normalised wallet in place, commits only while the modal is closed, and never touches the snapshot object |
| SniperModal.SniperFeature.ApplyAutosellPatch | ui/launchdeck/sniper-feature.js:765-781 | the same for sell settings, refused for a wallet that is not selected |
| SniperModal.SniperFeature.ToggleEnabled | ui/launchdeck/sniper-feature.js:871-875 | the switch changes the draft in place and renders |
| SniperModal.SniperFeature.SetStateTo | ui/launchdeck/sniper-feature.js:1097-1100 | the normalised value becomes the draft, and the snapshot too while the modal is closed |
| SniperModal.SniperFeature.ShowModal | ui/launchdeck/sniper-feature.js:729-740 | showing the modal snapshots the draft |
| SniperModal.SniperFeature.HideModal | ui/launchdeck/sniper-feature.js:742-749 | hiding an open modal restores the snapshot |
| SniperModal.SniperFeature.SaveModal | ui/launchdeck/sniper-feature.js:1060-1072 | saving commits and closes if validation finds nothing, and changes nothing otherwise |
| SniperModal.SniperFeature.ResetState | ui/launchdeck/sniper-feature.js:751-759 | resetting empties draft, snapshot, form and store |
| SniperSession.CancelRollsBack | ui/launchdeck/sniper-feature.js:208-225 | after any edits since the modal was shown, cancelling gives back the normalised draft it was shown with, with the form derived from it and nothing stored |
| SniperSession.FormHeldWhileOpen | ui/launchdeck/sniper-feature.js:602-616 | an edit in the open modal leaves every form alone if and only if it neither re-applies the draft nor renders one that holds the deployer's wallet; otherwise the form shows the unsaved draft |
| SniperSession.UnsavedDraftInForm | ui/launchdeck/sniper-feature.js:710-740 | from a loaded draft with the deployer's wallet, showing the modal and switching sniping on leaves the form on with nothing saved |
| SniperSession.ReachableInvariant | ui/launchdeck/sniper-feature.js:60-65 | in every run keys stay distinct and the snapshot stays normalised |
| SniperSession.PatchLaw | ui/launchdeck/sniper-feature.js:783-795 | each of the 13 fields of the patched wallet is the patched one or the normalised one before; every other wallet but the deployer's and the switch stay, and so do snapshot and store unless it is committed |
| SniperSession.AutosellLaw | ui/launchdeck/sniper-feature.js:765-781 | sell settings patch a selected wallet in the same way and leave any other one alone |
| SniperSession.RenderLaw | ui/launchdeck/sniper-feature.js:602-616 | a render deselects the deployer's wallet and clears its amount, changes no other wallet, and writes the form of a closed modal |
| SniperSession.ReplaceLaw | ui/launchdeck/sniper-feature.js:1097-1100 | replacing the draft leaves form and store alone; with the modal closed the snapshot is the new draft itself |
| SniperSession.ToggleLaw | ui/launchdeck/sniper-feature.js:871-875 | the switch changes nothing but itself and what a render drops |
| SniperSession.ShowLaw | ui/launchdeck/sniper-feature.js:729-749 | showing the modal keeps the other wallets; hiding a closed one does nothing |
| SniperSession.ResetLaw | ui/launchdeck/sniper-feature.js:751-759 | a reset leaves nothing selected, stored or exported, and the modal as it is |
| SniperRestore.StoredRestoresForm | ui/launchdeck/app.js:4487-4547 | hydrating restores the exported entries of the draft last saved if and only if it had a wallet and was on or not all new, or the saved settings hold no selected wallet that buys; strategy and switch come back with them |
| SniperRestore.StoredExactly | ui/launchdeck/sniper-feature.js:175-206 | a draft is stored if and only if it has a wallet and is on or has a wallet that differs from a new one |
| SniperRestore.ChangedExactly | ui/launchdeck/sniper-feature.js:175-191 | the tests of persistDraft say a wallet has state if and only if it differs from a new one |
| SniperRestore.ResetComesBack | ui/launchdeck/app.js:4498-4505 | after a reset, saved settings with one buying wallet come back on hydrating |
| SniperRestore.HydratesDraftExactly | ui/launchdeck/app.js:4513-4547 | hydrating from the exported form gives back the normalised draft if and only if every wallet buys and its hidden fields have their decoded values |
| SniperRestore.PlainBuyerChanged | ui/launchdeck/app.js:4536-4538 | a wallet that only buys comes back changed, whatever its amount |
| SniperRestore.SaveCommits | ui/launchdeck/sniper-feature.js:1060-1072 | a save commits the normalised draft, exports and stores it; an enabled one exports ready wallets only and is always stored; hydrating then restores its entries under the exact condition |
| AutoSellDraft.DraftStable | ui/launchdeck/app.js:1355-1391 | normalising is idempotent on arbitrary input, legacy minutes and invalid percentages included |
| AutoSellDraft.NormalizedSettled | ui/launchdeck/app.js:1355-1391 | every normalised draft has its fields in range, and market-cap family implies market-cap enabled |
| AutoSellDraft.DraftSurvivesStore | ui/launchdeck/app.js:1355-1391 | a normalised draft survives JSON and normalising again if and only if its delay is finite, that is, the raw delay did not read as infinity |
| AutoSellDraft.InfiniteDelay | ui/launchdeck/app.js:1384-1384 | a delay given as the text Infinity normalises to an infinite one |
| AutoSellDraft.LegacyMinutes | ui/launchdeck/app.js:1360-1371 | legacy timeout minutes become seconds, up to a day |
| AutoSellDraft.FamilyLaw | ui/launchdeck/app.js:1355-1390 | the trigger family with and without a stated one, the trigger mode, the market-cap switch and the timeout action of any raw draft |
| AutoSellDraft.PercentLaw | ui/launchdeck/app.js:1372-1381 | a whole percentage from 1 to 100 is kept, a missing one is 100, any other text stays as typed |
| AutoSellDraft.WholeNumbers | ui/launchdeck/app.js:1384-1388 | whole offsets, delays and timeouts are kept within their limits |
| AutoSellDraft.MissingTimeout | ui/launchdeck/app.js:1360-1371 | without a timeout of either kind it is 30 seconds; an empty one in seconds stays empty |
| AutoSellDraft.PlainFields | ui/launchdeck/app.js:1378-1390 | every object normalises; its switches and its threshold are kept |
| DraftStore.LocalStorage.ReadGlobalDraft | ui/launchdeck/app.js:1011-1037 | the read, its scan of scoped keys and its migrating write |
| DraftStore.LocalStorage.SetGlobalDraft | ui/launchdeck/app.js:1039-1057 | the write, which leaves no scoped key behind |
| DraftStore.ReadAfterWrite | ui/launchdeck/app.js:1011-1057 | a read after a write returns the value less its launchpad, for every value, if and only if a legacy key is given and is not a scoped one |
| DraftStore.ReadKeepsValue | ui/launchdeck/app.js:1011-1037 | a read, migrating or not, never changes what later reads find |
| DraftStore.MigrationOrder | ui/launchdeck/app.js:1024-1032 | a migrating read answers with the first stored draft in launchpad order |
| DraftStore.RefinesCell | ui/launchdeck/app.js:950-962 | over every sequence of reads and writes the keys behave as one optional cell |
| DraftStore.ReadBackFields | ui/launchdeck/app.js:1011-1057 | after a write the read has every field of the object but its launchpad and no other; truthy primitives read as themselves, falsy ones as null |
| DraftStore.MigratedFields | ui/launchdeck/app.js:1011-1033 | a migrating read answers with the fields of the first launchpad's draft and stores them unless falsy |
| DraftStore.WriteTouches | ui/launchdeck/app.js:1039-1057 | a write sets or clears the legacy key, clears the three scoped keys and touches no other |
| DraftStore.GarbageReadsNull | ui/launchdeck/app.js:1011-1037 | text that is no JSON reads as null and is left alone |
| LatestRequest.RequestState.AbortCurrent | ui/launchdeck/request-utils.js:218-220 | the controller in force, if any, is aborted and no other |
| LatestRequest.RequestState.TakeOver | ui/launchdeck/request-utils.js:217-222 | a call takes the next serial and puts its own controller in force |
| LatestRequest.RequestState.Start | ui/launchdeck/request-utils.js:212-223 | a start takes the next serial, aborts the controller in force and replaces it |
| LatestRequest.RequestState.Settle | ui/launchdeck/request-utils.js:225-259 | a settled request is the latest if its serial is, and clears the controller only if it is its own |
| LatestRequest.ReportPanel.LoadEntry | ui/launchdeck/app.js:6736-6752 | a load takes the panel's serial and the request's in one step, with a fresh signal held for it, and neither when it returns early |
| LatestRequest.ReportPanel.AfterFetch | ui/launchdeck/app.js:6753-6758 | the four tests after the fetch let a result through only for the newest load, not aborted and latest |
| LatestRequest.LatestWins | ui/launchdeck/request-utils.js:190-259 | over every interleaving and for either caller the controller is null or the newest request's, exactly the older pending ones are aborted, and results apply in increasing order |
| LatestRequest.NewestIsKept | ui/launchdeck/request-utils.js:225-242 | once all is delivered, a fetched newest request is the last one applied |
| LatestRequest.SerialsInStep | ui/launchdeck/app.js:6736-6770 | over all runs the panel's serial equals the request serial; its test passes exactly the newest request's result, which is then never aborted or superseded |
| LatestRequest.NeverSupersededExactly | ui/launchdeck/request-utils.js:212-259 | over all runs no caller applies a superseded result if and only if it keeps its own serial or callers continue before anything else starts |
| LatestRequest.StartLaw | ui/launchdeck/request-utils.js:216-223 | over all runs a start takes the next serial, signals every pending request and not its own |
| LatestRequest.SettleLaw | ui/launchdeck/request-utils.js:225-259 | what a settled request hands its caller, after all earlier results, and when it clears the controller |
| FollowPolling.FollowRefresh.StopRefresh | ui/launchdeck/app.js:6408-6416 | stopping takes a new serial and clears timer, report and start time |
| FollowPolling.FollowRefresh.StartRefresh | ui/launchdeck/app.js:6502-6511 | starting stops the old chain and arms one timer, unless no report is named |
| FollowPolling.FollowRefresh.OnTimer | ui/launchdeck/app.js:6468-6471 | a timer polls only for the current serial |
| FollowPolling.FollowRefresh.OnReply | ui/launchdeck/app.js:6472-6500 | a reply applies, stops or re-arms as the branches say, a failure to show it included, and does nothing for an older serial |
| FollowPolling.SingleChain | ui/launchdeck/app.js:6468-6511 | in every reachable state at most one timer or poll is current, and it is for the recorded report |
| FollowPolling.StopSilences | ui/launchdeck/app.js:6408-6416 | after a stop no older poll applies a snapshot or sets a timer again |
| FollowPolling.ChainBounded | ui/launchdeck/app.js:6472-6500 | a chain makes at most 60 polls and one more per late reply that is not ok |
| FollowPolling.BoundAttained | ui/launchdeck/app.js:6472-6500 | the bound is met for every number of late replies that are not ok |
| FollowPolling.SixtyPolls | ui/launchdeck/app.js:6468-6511 | for every set of reply kinds: all runs with these replies keep every chain within 60 polls if and only if not-ok replies are not among them |
| FollowPolling.FailingPolls | ui/launchdeck/app.js:6472-6500 | for every n there is a chain of n polls whose replies are not ok |
| FollowPolling.AppliesForward | ui/launchdeck/app.js:6472-6475 | from any state on, only the current or a later chain applies snapshots |
| FollowPolling.ReplyLaw | ui/launchdeck/app.js:6468-6500 | over all runs a finished job, and any reply after 90 seconds but one that is not ok, ends the chain; every other reply sets one timer in 1.5 seconds for the same report; accepted reports are shown; an older chain's reply is dropped |
| FollowPolling.FireLaw | ui/launchdeck/app.js:6468-6471 | a due timer leaves none pending and polls the recorded report |
| FollowPolling.StartLaw | ui/launchdeck/app.js:6408-6416 | starting ends the old chain and sets one timer of the next serial; stopping leaves nothing pending |
| TweetImages.ImageRow.PersistSelected | ui/launchdeck/app.js:4814-4844 | an upload starts only for the selected session image and only if none is awaited |
| TweetImages.ImageRow.SelectCandidate | ui/launchdeck/app.js:4737-4764 | selecting makes the entry the session image and forgets the upload of another one |
| TweetImages.ImageRow.RemoveCandidate | ui/launchdeck/app.js:4766-4781 | removing the selected entry selects the first one still shown, or nothing |
| TweetImages.ImageRow.OnUploaded | ui/launchdeck/app.js:4822-4836 | a finished upload becomes the launch image only for the selected session image |
| TweetImages.ImageRow.OnFinally | ui/launchdeck/app.js:4836-4841 | the shared promise is cleared only by its own upload |
| TweetImages.ImageRow.LoadContext | ui/launchdeck/app.js:4934-4946 | a loaded context replaces the row and selects its first entry unless it comes from X |
| TweetImages.ImageRow.SaveCropped | ui/launchdeck/app.js:4905-4923 | a crop is put first, selected and uploaded |
| TweetImages.ImageRow.Upsert | ui/launchdeck/app.js:4628-4659 | a library image revives and overwrites its entry or is put first |
| TweetImages.ImageRow.AddLibraryImage | ui/launchdeck/app.js:4661-4672 | a library image is entered and selected |
| TweetImages.ImageRow.AddImportedImages | ui/launchdeck/app.js:4674-4690 | imported images are entered in turn; the first is selected if asked |
| TweetImages.RowIsSound | ui/launchdeck/app.js:4628-4844 | in every interleaving the selected id is empty or an entry still shown, the awaited upload is never another candidate's, and no selection is installed twice |
| TweetImages.InstallsWhileSelected | ui/launchdeck/app.js:4814-4844 | an upload is installed only by its success while its candidate is selected, shown and the session image |
| TweetImages.InstallsSelectedSource | ui/launchdeck/app.js:4814-4844 | in a run in which ids keep their sources, the installed source is the selected entry's |
| TweetImages.InstallsOwnSourceExactly | ui/launchdeck/app.js:4737-4844 | over all runs drawing on a library, what is installed is the selected entry's source if and only if no library entry ever changes its source |
| TweetImages.ReplacedDuringUpload | ui/launchdeck/images-feature.js:434-441 | a library image replaced under its id during its upload: the old source is installed for the new entry, and it is the right one only if both are equal |
| TweetImages.PersistCompletes | ui/launchdeck/app.js:4814-4844 | a persist request for the selected session image awaits an upload of that image, whose success installs it |
| TweetImages.RemoveLaw | ui/launchdeck/app.js:4766-4781 | over all runs exactly the first entry of the id is marked; if it was selected, the first entry still shown is selected and its upload awaited, or nothing is if there is none or the row is from X |
| TweetImages.LoadLaw | ui/launchdeck/app.js:4934-4946 | over all runs a load selects its first entry and awaits its upload, or nothing if empty or from X |
| TweetImages.CropLaw | ui/launchdeck/app.js:4905-4923 | over all runs a crop is put first, selected and its upload awaited |
| TweetImages.SelectLaw | ui/launchdeck/app.js:4737-4764 | a selection makes the first shown entry of the id the session image, with a new upload unless one is awaited for it |
| TweetImages.SelectNothing | ui/launchdeck/app.js:4737-4739 | selecting an id of no entry shown does nothing |
| TweetImages.RemoveNothing | ui/launchdeck/app.js:4766-4768 | removing an id of no entry does nothing |
| TweetImages.UpsertLaw | ui/launchdeck/app.js:4628-4659 | a library image changes the first entry of its id alone, or is put first |
| TweetImages.LibraryLaw | ui/launchdeck/app.js:4661-4672 | picking a library image selects it and drops what is awaited, and nothing else changes |
| TweetImages.ImportLaw | ui/launchdeck/app.js:4674-4690 | imported images are entered one after the other, what is awaited is dropped, and the first is selected if asked |
| TweetImages.StoredLaw | ui/launchdeck/images-feature.js:150-151 | choosing a stored image, or none, changes the launch image alone |
| TweetImages.SettleLaw | ui/launchdeck/app.js:4822-4836 | an upload's end installs it exactly when it succeeded for the selected session image |
| TweetImages.FinishLaw | ui/launchdeck/app.js:4836-4841 | the clean-up forgets one upload, and the shared promise if it was that one |
| WarmPresence.Presence.MarkPresence | ui/launchdeck/app.js:5612-5624 | activity is announced once, and both timers are set |
| WarmPresence.Presence.SetInactive | ui/launchdeck/app.js:5626-5633 | going inactive clears both timers and is announced once |
| WarmPresence.Presence.OnTimer | ui/launchdeck/app.js:5598-5624 | what a due idle timer or heartbeat does |
| WarmPresence.PresenceAgrees | ui/launchdeck/app.js:5577-5633 | after any run the flag, the two timers and the last message agree; an inactive message is never first and never follows another |
| WarmPresence.FiringsExact | ui/launchdeck/app.js:5598-5633 | a timer ends the session only ten minutes or more after the last activity; any other firing sends a heartbeat |
| WarmPresence.FreshWhileActive | ui/launchdeck/app.js:5598-5624 | with punctual timers an active page was used within ten minutes and told the server within one |
| WarmPresence.MarkLaw | ui/launchdeck/app.js:5612-5624 | over all runs activity is announced only to begin a session; the idle timer is set anew for ten minutes and the heartbeat kept or set for one |
| WarmPresence.CloseLaw | ui/launchdeck/app.js:5626-5633 | over all runs closing is announced only to end a session and leaves nothing pending |
| WarmPresence.FireLaw | ui/launchdeck/app.js:5598-5624 | over all runs a heartbeat carries the last reason and is due again in a minute; the idle timer ends the session |
| WarmPresence.LeftAlone | ui/launchdeck/app.js:5577-5633 | a page used once and left for ten minutes says so |
| ActionItems.ProbeMap | scripts/runtime-diagnostics.js:447-458 | the map answers, for every variable, with the last probe of it or of the primary it repeats |
| ActionItems.DedupeActions | scripts/runtime-diagnostics.js:468-476 | the filter with its set of keys keeps the first occurrence of every item |
| ActionItems.ActionItems | scripts/runtime-diagnostics.js:478-512 | the three loops gather and dedupe as specified |
| ActionItems.KeyInjective | scripts/runtime-diagnostics.js:471-471 | the key of an item tells it apart from every other item |
| ActionItems.DedupedExact | scripts/runtime-diagnostics.js:468-476 | deduping keeps every item exactly once, in order |
| ActionItems.DedupedTwice | scripts/runtime-diagnostics.js:468-476 | deduping is idempotent |
| ActionItems.ActionsExact | scripts/runtime-diagnostics.js:478-512 | an item is listed if and only if an unreachable service, a probe that is not OK or an uncovered diagnostic calls for it |
| ActionItems.NoDiagnosticLost | scripts/runtime-diagnostics.js:440-512 | every diagnostic's item is listed, or the item of a failing probe of its variable on a compatible host is |
| ActionItems.ListIsClean | scripts/runtime-diagnostics.js:468-512 | no two listed items share a key; the list is an order-preserving selection of everything gathered, services first |
| ActionItems.DeadSocketReported | scripts/runtime-diagnostics.js:403-438 | a failing primary socket is listed as critical if and only if no other socket works and as failed otherwise; the other severity appears only if something else says exactly that |
| ActionItems.DiagnosticListed | scripts/runtime-diagnostics.js:440-445 | an uncovered diagnostic is critical if and only if its severity is critical or error, and says its message, or else its code, after its variable |
| ActionItems.ProbeListed | scripts/runtime-diagnostics.js:489-497 | a failing probe is listed with its own status, host and detail |
| ActionItems.ServiceListed | scripts/runtime-diagnostics.js:481-488 | an unreachable service is listed as critical |
| ActionItems.CoveredExactly | scripts/runtime-diagnostics.js:447-466 | a diagnostic is covered if and only if the last probe of its variable, or of the primary it repeats, is not OK on a compatible host and no restart is needed |
| ActionItems.SocketProbes | scripts/runtime-diagnostics.js:403-438 | both socket probes in every case of URLs and outcomes |

## Left out

- User interface: rendering, layout, markup, toasts, modal errors and button states; of rendering only its effects on drafts and forms are modelled.
- Network, authentication, token prompts, Chrome APIs and file uploads: their outcomes are the steps' parameters.
- The modules under `ui/launchdeck/app`, among them settings, split editors, wallet runtime and quote preview: their calls into the modelled code are events.
- The Rust stubs, the packaged extension copies, and the runtime-control, packaging and version scripts.
- The debounce helpers and `estimateWrapperFeeLamports`, a single floor division; the same-time fee notice; the buy-total field, which depends on number formatting.
- The scoped draft functions `readStoredScopedDraft` and `setStoredScopedDraft`, and launchpads that only the page's radio buttons name.
- The probes' network traffic: a probe's outcome is a parameter, and only the socket statuses are modelled, not the RPC ones.
- Arrays as stored drafts, and failures of storage.
- Candidate and draft records that the image row and the wallet map update in place are values inside a sequence; sharing of a single record between holders is not modelled.
- LatestRequest.LatestWins: a caller that resumes out of settling order is not modelled.
- LatestRequest.ReportPanel.LoadEntry: the panel without a latest-wins fetch to call, which then relies on its own serial alone, is not modelled.
- TweetImages.InstallsOwnSourceExactly: the ids of tweet images and crops, generated with a random part, are taken to be distinct.
- Ticker.FormatSettles: assumes upper-casing is a per-code-point map that leaves its results alone; locale rules are not modelled.
- FollowPolling.FollowRefresh.OnReply: a snapshot whose showing fails counts as applied, even if only in part.
