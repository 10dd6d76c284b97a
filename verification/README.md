# privacyclaw, verified

A Dafny model of the parts of privacyclaw where bytes must not get lost, duplicated or misread: masking personal
data in requests, unmasking it in streamed responses, and the wire framing around both. Text is a sequence of bytes
throughout. `dafny verify dfyconfig.toml` checks everything.

The two laws at the centre:

- **Streaming unmasking.** The replacement buffer rewrites what it has, flushes a part, keeps *rewritten* text and
  rewrites it again with the next delta. `Streaming.StreamingEqualsOneShot` shows that the client still receives
  exactly one rewrite of the whole text, for every vault that is `Sound` (no key is complete before another key that
  it lies in is, keys and originals neither contain nor overlap each other, no `<` in either), every `Admissible` text
  (tokens not nested, complete ones known, at most the last one incomplete, no stray `<` that rewriting turns into a
  `<pii`) and every cut outside a `<pii`. The heart is `Rescan.RescanStable`. `Nested.StreamsAgreeIff` shows that,
  among vaults whose keys and originals are apart, the condition on nested keys is exact, `Reread` what happens when
  they are not apart, `Limits.CutTokenRestoredIff` what a cut inside a `<pii` does, and `PlainText` drops the
  condition on `<` in keys for text without tags. `Chars.PiecesAreUtf8` shows that no piece splits a character.
- **Mask, then unmask.** `RoundTrip.MaskThenUnmask` and `RoundTrip.MaskThenStream` show that the masked text, sent
  back whole or as a stream, becomes the original text again, whatever the generator and the token-id hash did.

## Files

| files | subject |
|---|---|
| Bytes, Text, Utf8 | byte strings, search, UTF-8, trimming, lines, numbers |
| Vault, VaultStore, Registry | the mapping store as a value, as an object, and the registry protocol |
| Unmask, Tokens, Rescan, Holdback, Streaming, Interleaved, PlainText, Nested, Reread, Limits, Chars, ReplacementBuffer (module `Buffer`) | unmasking, one-shot and streamed |
| Spans, Masking, Passes, RoundTrip, Instance | choosing spans, masking them, what passes leave in the vault, and undoing it |
| Chunked, Sse | chunked transfer coding (section 4.1 of RFC 7230) and event streams |
| Requests, Rebuild, Headers, RequestLoop | request headers (section 3.3 of RFC 7230), rebuilding, the keep-alive loop |
| Sni, Dns | ClientHello (section 4.1.2 of RFC 8446, section 3 of RFC 6066) and DNS (section 4.1 of RFC 1035) |
| Luhn, Config, Calendar | check digits, configuration patches, the build date |

Objects that the source updates in place are classes, loops are loops, and each method is proved against a function
of its inputs; the laws are lemmas about those functions.

## Findings

Where the code and its own words differ, the model follows the code.

- A delta boundary inside the `<pii` of a token loses the token, unless everything from the `<` on happens to be held
  back for a key and no key lies in the part of the tag: `Limits.CutTokenRestoredIff` gives this exact condition for
  any plain text before the cut and any deltas after it, and `Limits.TagPartHeldIff` says when that much is held. Only
  a complete `<pii` is held back for itself (src/pii/buffer.rs:322-341). `Instance.OneByteLost` is such a loss.
- A key that is complete before another key that it lies in is restored too early. If keys and originals are `Apart`
  (neither contain nor overlap each other, no `<` in either) and no original lies in another one, all streams agree if
  and only if there is no such pair (`Nested.StreamsAgreeIff`). `Nested.NestedKeysAgreeIff` gives the exact condition
  for one pair without that condition on the originals, and `Nested.NestedKeysDisagree` is an instance.
- The held tail of an inserted original is rewritten again (src/pii/buffer.rs:83-147). If a key lies in it, another
  person's value appears, even when everything arrived in one delta. `Reread.KeyAgreesIff` gives the exact condition
  for each key, `Reread.OneDeltaIs` the output for any plain text, and `Reread.RereadDisagrees` an instance in which
  neither keys nor originals lie in one another.
- The comment on the cascade says that display values are not replaced there (src/pii/buffer.rs:163-165); the code
  replaces them in every stretch between tokens, and so does `Unmask.Cascade`.
- The masking pass over spans stores each new mapping without a token id before it writes the token indexes, so none
  of its ids is saved: after a restore, tokens resolve as if the pass had not been
  (`RoundTrip.RestoredVaultForgetsTokens`). In a vault that had no stored ids before, that is no token at all. Ids of
  language-model findings are stored (src/pii/mod.rs:318-328) and do survive.
- After the terminal chunk, the incremental decoder starts over instead of ending: `Chunked.PushSplitsIff` gives the
  exact inputs on which two pushes differ from one. A bad size line is not passed through as its comment says
  (src/proxy/intercept/framing.rs:218); it stops the decoder for good (`Chunked.BadSizeStopsForGood`).
- A chunked request body with a chunk that claims a few bytes more than it holds passes the search for its end and then
  makes the decoder slice past the end of the body, which panics and ends the connection's task
  (src/proxy/intercept/framing.rs:56, src/proxy/intercept/framing.rs:65). So does a size near the largest address.
  `Chunked.OneShotPanicsIff` and `RequestLoop.LoopDiesIff` give the exact conditions, `RequestLoop.ShortChunkKills` an
  input.
- The rebuilder also drops and replaces `Accept-Encoding`, which its comment does not mention, and a blank line in
  front of the header makes it lose the header (`Rebuild.LeadingBlankLosesHeader`).
- The loop looks for the end of a chunked body by its bytes. A last chunk that is not written as a bare `0`, which
  both decoders accept, is not seen (`RequestLoop.ServedWholeIff`, `RequestLoop.OddLastChunk`), and an empty chunked
  body takes along whatever follows it in the buffer up to the end of another one (`RequestLoop.EmptyChunkedBody`).
- A request without a length that is not chunked takes everything that arrived with it
  (`RequestLoop.BodylessTakesAll`).
- One read drains at most one request. A second one that arrives complete with the first waits until more bytes come
  (`RequestLoop.RequestsDrained`, `RequestLoop.OneReadServesOne`).
- An empty field name in front of a path is lost in the report, so `{"": {"a": 1}}` reports `a` (`Config.DottedIs`).
- A null patched into a missing field changes the document without being reported: `Config.UnchangedIff` and
  `Config.ReportIsEmptyIff` say when the report can be trusted. The table of allowed tiers (src/config.rs:405-410)
  leaves out the combination with all tiers off, which the code accepts.

## Model

| member | source | states |
|---|---|---|
| Bytes.Find | src/pii/buffer.rs:256-264 | the offset returned is the first occurrence; none is returned only if there is none |
| Bytes.FindStable | src/pii/buffer.rs:256-264 | the first occurrence does not move when the text grows |
| Vault.BestKey | src/pii/vault.rs:342-357 | the matcher's choice at a position: the longest key that matches, the earliest among equals, none only if no nonempty key matches |
| Vault.ReplaceToMatch | src/pii/vault.rs:399-417 | leftmost-longest replacement copies up to the next match and puts the original in its place |
| Vault.ReplaceToEnd | src/pii/vault.rs:399-417 | without a further match the rest is copied |
| VaultStore.PiiVault.ReplaceSynthetics | src/pii/vault.rs:399-417 | the match loop computes the leftmost-longest replacement of the whole text and tells whether a key occurred |
| Vault.RunKeeps | src/pii/vault.rs:240-306 | over every run of adds, token adds and merges: sequences stay aligned, originals distinct, the map is their zip, the recorded maximum is the longest key, indexes answer with mapped originals, and no mapping is changed or lost |
| Vault.InsertAllKeeps | src/pii/vault.rs:612-676 | inserting any list of mappings keeps the invariant and every existing mapping |
| Vault.AddWithTokenKeeps | src/pii/vault.rs:267-306 | adding with a token id keeps the invariant and changes no mapping, known original or not |
| Vault.MergeIsUnion | src/pii/vault.rs:487-498 | draining one vault into another gives the union of mappings and of all three indexes, the target winning |
| Vault.MergedRows | src/pii/vault.rs:612-676 | the rows of a merge are the target's, then those of the source that the target lacks, in order, with type, tier and confidence as they were and no id |
| Vault.RestoredSequences | src/pii/vault.rs:199-232 | a restored vault has the records' rows, in order, each once |
| Vault.RestoredIsValid | src/pii/vault.rs:199-232 | a restored vault satisfies the invariant exactly when the records' originals are distinct |
| Vault.RecordsRoundTrip | src/pii/vault.rs:421-439 | saving then restoring gives back every mapping, row and maximum; only token indexes may differ |
| Vault.RestoredTokens | src/pii/vault.rs:199-232 | the three lookups of a restored vault are those that its records with an id say, by token, by id and by display |
| Vault.SaidByIs | src/pii/vault.rs:218-228 | what such records carry is known, nothing else is, and the last record that carries it decides its meaning |
| Vault.SavedMarks | src/pii/vault.rs:421-439 | a mapping is saved with its id, and its synthetic as its display |
| VaultStore.PiiVault.constructor | src/pii/vault.rs:175-196 | a new vault is empty and satisfies the invariant |
| VaultStore.PiiVault.FromRecords | src/pii/vault.rs:199-232 | the restore loop gives the restored vault with a matcher over its keys; the invariant holds exactly for distinct originals |
| VaultStore.PiiVault.InsertMappingRaw | src/pii/vault.rs:325-340 | all parallel vectors, the map and the maximum gain one entry; the matcher is not touched |
| VaultStore.PiiVault.RebuildAutomaton | src/pii/vault.rs:342-357 | the matcher is over the current keys |
| VaultStore.PiiVault.AddMapping | src/pii/vault.rs:240-262 | a known original changes nothing; a new one is added; invariant and existing mappings are kept |
| VaultStore.PiiVault.IndexToken | src/pii/vault.rs:300-306 | the three token lookups gain the mapping |
| VaultStore.PiiVault.AddMappingWithTokenId | src/pii/vault.rs:267-306 | the core insert is skipped for a known original, the indexes are written either way, the invariant is kept |
| VaultStore.PiiVault.MergeFrom | src/pii/vault.rs:612-676 | the drain loop, the index copy and the single rebuild together give the merged vault with a fresh matcher, even when there was nothing to drain |
| Vault.MergeIsAligned | src/pii/vault.rs:612-676 | draining keeps the sequences aligned, repeated originals or not |
| Registry.MergeIntoKeeps | src/pii/vault.rs:612-676 | a merge of conversations keeps handles allocated and unshared, whatever storage holds |
| Registry.MergeIntoKeepsVaults | src/pii/vault.rs:612-676 | a merge keeps every vault's invariant if the loaded vault satisfies it |
| Registry.MergeIntoIsUnion | src/pii/vault.rs:612-676 | both branches, moved or drained, leave the union of both vaults under the target, the target winning |
| Registry.MergeIntoHandle | src/pii/vault.rs:612-676 | the target keeps its handle, or takes over the source's if storage holds nothing, or gets a fresh one; no other vault changes |
| Registry.MergeIntoElsewhere | src/pii/vault.rs:612-676 | the source is gone and no other conversation changes |
| Registry.RunIsIsolated | src/pii/vault.rs:549-573 | in every interleaving two conversations never share a vault |
| Registry.RunKeepsVaults | src/pii/vault.rs:549-573 | in every interleaving all vaults keep their invariant if those loaded satisfy it |
| Registry.RunHasOneHandle | src/pii/vault.rs:549-573 | while a conversation is neither evicted nor merged, every finished call holds the registered handle |
| Registry.RegistryProtocol | src/pii/vault.rs:549-573 | from the empty registry, in every interleaving of check, load and commit: one handle per conversation, at most one insertion |
| Registry.RunKeepsContent | src/pii/vault.rs:549-573 | over every run that neither evicts nor merges a conversation and in which its loads agree, every vault loaded or returned for it has the loaded content |
| Registry.CallersGetWhatIsStored | src/pii/vault.rs:549-602 | in every interleaving each finished call has the vault that storage holds for its conversation, or an empty one |
| Registry.CallersGetWhatWasSaved | src/pii/vault.rs:549-602 | if a valid vault was saved, each finished call has its mappings, in their order |
| Registry.HitLoadsNothing | src/pii/vault.rs:550-558 | a call for a registered conversation is over at its check |
| Registry.EvictedAreGone | src/pii/vault.rs:679-688 | exactly the evicted conversations leave, the others keep their vaults |
| Registry.EvictedIsLoadedAgain | src/pii/vault.rs:560-573 | the next call for an evicted conversation gets a fresh vault with what storage holds then, and nobody else notices |
| Unmask.PlainStretch | src/pii/buffer.rs:166-253 | a stretch before a tag is rewritten by itself: no key reaches into the tag |
| Unmask.CascadeIsScan | src/pii/buffer.rs:166-253 | the segment-wise cascade equals one scan that decides byte by byte between token, key and literal |
| Buffer.ApplyXmlTokenCascade | src/pii/buffer.rs:166-253 | the position loop with its fast path computes the cascade |
| Buffer.RestoreToken | src/pii/buffer.rs:207-250 | the levels are tried in order: full token, id, display, unchanged |
| Tokens.TokenHasId | src/pii/buffer.rs:268-273 | the id read from a written token is the one it was written with |
| Tokens.TokenHasDisplay | src/pii/buffer.rs:276-286 | the display read from a written token is the one it was written with, whatever bytes it holds |
| Tokens.TokenText | src/pii/vault.rs:124-126 | a token is `<pii id="`, the id, `">`, the display and `</pii>` |
| Tokens.AttrIff | src/pii/buffer.rs:268-273 | in any token, an attribute has a value exactly if the token is cut around its first occurrence and the next quote |
| Tokens.InnerIff | src/pii/buffer.rs:276-286 | in any token, the display is what stands between its first `>` and its last `</` |
| Tokens.NoIdNoDisplay | src/pii/buffer.rs:215-241 | a token without an id is only known as it stands |
| Tokens.LevelsOfToken | src/pii/buffer.rs:215-241 | a written token is looked up as a whole, then by its id, then by its display |
| Tokens.AlteredDisplayIsRestored | src/pii/buffer.rs:223-230 | a token whose display was altered is restored by its id |
| Tokens.AlteredIdIsRestored | src/pii/buffer.rs:232-240 | a token whose id was altered to an unknown one is restored by its display |
| Rescan.SkipOriginal | src/pii/buffer.rs:83-111 | an inserted original passes a second rewrite untouched, whatever follows it |
| Rescan.KeyTailWasThere | src/pii/buffer.rs:83-111 | the rest of a key seen in rewritten text was already there in the text: rewriting makes no new keys |
| Rescan.MisspellsKept | src/pii/buffer.rs:83-111 | a stray `<` that cannot become a tag still cannot after a first part was rewritten |
| Rescan.ParagraphIsHarmless | src/pii/buffer.rs:322-341 | a paragraph tag is such a stray `<` |
| Rescan.RescanStable | src/pii/buffer.rs:83-111 | rewriting a first part and then the whole again equals rewriting the whole once, and leaves nothing more to rewrite in the first part |
| Holdback.CharBoundary | src/pii/buffer.rs:358-364 | the largest character boundary at or below a position |
| Holdback.OpenTagPosIff | src/pii/buffer.rs:322-341 | a position is held for an open token exactly if the last `<pii` stands there and no `</pii>` behind it |
| Holdback.TriggersAreKeyStarts | src/pii/buffer.rs:343-355 | a tail is held exactly if the first two bytes of some key stand in it, or its last byte begins such a key |
| Holdback.HoldbackSafe | src/pii/buffer.rs:297-317 | for every continuation, a key without `<pii` that starts before the flush point was already complete in the text, also after rounding down |
| Buffer.HasPrefixMatch | src/pii/buffer.rs:343-355 | the loop finds a trigger exactly when a two-byte prefix occurs or the last byte opens one |
| Buffer.FindCharBoundary | src/pii/buffer.rs:358-364 | the loop finds the boundary, for positions past the end too |
| Buffer.ComputeSafeFlushLen | src/pii/buffer.rs:297-317 | the flush point of the specification |
| Buffer.ReplacementBuffer.constructor | src/pii/buffer.rs:32-39 | a new buffer holds nothing and has cached nothing |
| Buffer.ReplacementBuffer.ProcessDelta | src/pii/buffer.rs:45-132 | output, held text, cached prefixes and cached count after one delta |
| Buffer.ReplacementBuffer.FlushRemaining | src/pii/buffer.rs:135-147 | the held text is rewritten and the buffer emptied |
| Buffer.StreamAll | src/pii/buffer.rs:45-147 | pumping deltas through the object gives the stream the laws speak about |
| Utf8.ValidIffSpelled | src/proxy/intercept/framing.rs:104-112 | valid UTF-8 is exactly what scalar values spell, by the table of section 3 of RFC 3629 |
| Utf8.TrimsWhite | src/proxy/intercept/framing.rs:59 | trimming takes exactly the characters with the White_Space property, at the front and at the end |
| Chars.BoundaryIff | src/pii/buffer.rs:358-364 | in valid text a position is a character boundary exactly if both parts are valid text |
| Chars.BoundaryIsNear | src/pii/buffer.rs:358-364 | stepping back to a boundary takes at most three bytes |
| Chars.HoldsLittle | src/pii/buffer.rs:297-317 | without an open token no more is held back than the longest key and three bytes |
| Chars.FlushPointIs | src/pii/buffer.rs:297-317 | exactly what leaves: all before an open token; else all before the last boundary that leaves room for the longest key, if a key may start behind it; else everything |
| Chars.CascadeKeepsUtf8 | src/pii/buffer.rs:166-253 | if keys and originals are text, text is rewritten to text |
| Chars.DeltaKeepsUtf8 | src/pii/buffer.rs:45-132 | what leaves with a delta and what is held are both text |
| Chars.PiecesAreTheStream | src/pii/buffer.rs:45-147 | the pieces a client receives make up the stream |
| Chars.PiecesAreUtf8 | src/pii/buffer.rs:45-147 | every piece is text: no character is split |
| Streaming.Flush | src/pii/buffer.rs:92-111 | flushing a flushable part changes nothing in what is still to come |
| Streaming.OneDelta | src/pii/buffer.rs:45-132 | after one delta, what left and what the rest will give is what the whole would have given |
| Streaming.StreamFrom | src/pii/buffer.rs:45-147 | from any reachable buffer, the rest of the stream is one rewrite of buffer and deltas |
| Streaming.EmptyVaultStream | src/pii/buffer.rs:75-79 | without mappings everything passes unchanged |
| Streaming.StreamingEqualsOneShot | src/pii/buffer.rs:45-147 | streamed output equals one cascade over the whole text, also when the stream ends in a partial token |
| PlainText.BestLive | src/pii/vault.rs:342-357 | in a text without `<` the chosen key and original are those of the vault without keys that hold a `<` |
| PlainText.PlainStreamingEqualsReplace | src/pii/buffer.rs:45-147 | for text without `<`, any cut, keys and originals that do not contain or overlap each other, no key complete before another key that it lies in: streamed output equals plain replacement |
| Nested.TwoPlainDeltas | src/pii/buffer.rs:45-147 | two deltas of plain text give the rewrite of the first one's rewrite followed by the second, whatever the keys |
| Nested.EarlyRestore | src/pii/buffer.rs:45-147 | if the first delta holds a key, the stream is the text up to the first key, its original, and what the rest becomes |
| Nested.NestedKeysAgreeIff | src/pii/buffer.rs:45-147 | a key cut where a shorter key ends agrees with the whole exactly when its original is the shorter one's followed by the rewritten rest |
| Nested.NestedKeyDisagrees | src/pii/buffer.rs:45-147 | for a key inside another one, with originals that do not lie in one another, the cut behind the inner key gives another result than the whole |
| Nested.PlainStreamsAgreeIff | src/pii/buffer.rs:45-147 | for keys and originals that neither contain nor overlap each other, and originals that do not lie in one another: all plain streams agree with plain replacement exactly when no key is complete before another key that it lies in is |
| Nested.StreamsAgreeIff | src/pii/buffer.rs:45-147 | for keys and originals that are apart, and originals that do not lie in one another: all admissible, cleanly cut streams agree with the cascade under exactly that condition |
| Nested.NestedKeysDisagree | src/pii/buffer.rs:45-132 | with keys `ab` and `abc`, in a vault that satisfies its invariant, a cut before the `c` gives another result than the whole |
| Reread.OneDeltaIs | src/pii/buffer.rs:83-147 | one delta of plain text, for any keys and any originals without `<`: the flushed part of its rewrite, and the held part rewritten again |
| Reread.TwoDeltasAre | src/pii/buffer.rs:83-147 | the same for two deltas |
| Reread.OneDeltaAgreesIff | src/pii/buffer.rs:83-147 | one delta agrees with the whole exactly when rewriting leaves the held part alone |
| Reread.KeyAgreesIff | src/pii/buffer.rs:83-147 | a key alone comes out as its original exactly when rewriting leaves the held tail of that original alone |
| Reread.RereadDisagrees | src/pii/buffer.rs:83-147 | with `ab` for `ecd` and `cd` for `Z`, in a vault that satisfies its invariant, the one delta `ab` comes out as `eZ` |
| Interleaved.ApplyGrows | src/pii/vault.rs:240-306 | every operation on a vault, repeated originals or not, appends keys and adds as many mappings |
| Interleaved.RefreshIsCurrent | src/pii/buffer.rs:60-73 | the prefixes a delta uses are those of the vault at that moment, if the cache was taken from a vault that has only grown since |
| Interleaved.CacheIsTransparent | src/pii/buffer.rs:60-73 | however deltas and changes of the vault are interleaved, the output is what it would be with prefixes computed anew for each delta |
| Interleaved.NewBufferIsTransparent | src/pii/buffer.rs:60-73 | that holds for a new buffer over every valid vault and every restored one |
| Limits.CutBehindTag | src/pii/buffer.rs:322-341 | a token cut behind its `<pii` is restored |
| Limits.CutDelta | src/pii/buffer.rs:45-132 | what leaves and what is held when a delta ends inside a `<pii` |
| Limits.CutButHeld | src/pii/buffer.rs:297-317 | if nothing from the `<` on leaves and no key lies in the part of the tag, the stream is the rewrite of the whole, with any plain text before and any deltas after |
| Limits.CutAndLost | src/pii/buffer.rs:297-317 | if the `<` of a known token leaves, the stream is not the rewrite of the whole |
| Limits.StuckStays | src/pii/buffer.rs:45-147 | a `<` followed by an original that cannot complete the tag comes out as it is, whatever arrives |
| Limits.CutInKey | src/pii/buffer.rs:45-147 | if a key lies in the part of the tag, the token is lost although everything from the `<` on is held |
| Limits.CutTokenRestoredIff | src/pii/buffer.rs:297-341 | a stream cut inside the `<pii` of a known token agrees with the whole exactly when nothing from the `<` on leaves with that delta and no key lies in the part of the tag |
| Limits.TagPartHeldIff | src/pii/buffer.rs:297-317 | a part of the tag in which no key lies is held exactly when it fits in the window of the longest key and the window shows the front of a key |
| Spans.SortOrders | src/pii/mod.rs:659-667 | the sort used by both passes orders its input |
| Spans.SortIsStable | src/pii/mod.rs:659-667 | spans of equal rank keep their order |
| Spans.GreedyIsFirstCome | src/pii/tier1.rs:284-286 | a dropped span overlaps one that came earlier and stays to the end |
| Spans.GreedyIsDisjoint | src/pii/tier1.rs:284-286 | kept spans do not overlap |
| Spans.OverlapIsCommonPosition | src/pii/tier1.rs:284-286 | nonempty spans overlap exactly if some position lies in both |
| Spans.Detect | src/pii/tier1.rs:229-254 | both pattern loops and the sort give the first-come spans, disjoint and in order |
| Spans.MergeSpans | src/pii/mod.rs:656-668 | the result is drawn from the input, disjoint, in order, and every dropped span overlaps a kept one of at least its confidence |
| Spans.FirstTierWinsTies | src/pii/mod.rs:656-668 | a span of the first tier only gives way to a surer one or to one of its own tier |
| Spans.MergedAreInLine | src/pii/mod.rs:656-668 | for nonempty spans inside the text, the merged spans follow one another in the text |
| Spans.MaskingSkipsNone | src/pii/mod.rs:738-779 | for such spans none is skipped, every byte outside them stays, and each is kept if it is a synthetic in the vault at its turn and else exchanged for the token with its number's id and its display |
| Spans.MergedSpansAreMasked | src/pii/mod.rs:656-668 | merging then masking does that to every merged span |
| Masking.Base62Digits | src/pii/vault.rs:131-138 | a token id has the asked length and none of the bytes `<`, `>` and `"` |
| Masking.Base62Encode | src/pii/vault.rs:131-138 | the digit loop gives the last eight base-62 digits |
| Masking.IdReadsBack | src/pii/vault.rs:128-138 | an id read as digits `0-9A-Za-z`, the first weighing most, is its value up to a multiple of 62 to the length |
| Masking.SameDigitsIff | src/pii/vault.rs:131-138 | two values get the same id exactly when they differ by a multiple of 62 to the length |
| Masking.IdsCollide | src/pii/vault.rs:130-138 | eight digits do not hold 48 bits: two values below that share an id |
| Masking.GetOrCreate | src/pii/synth.rs:20-55 | a known original keeps its synthetic, a new one is stored with what was generated, the invariant is kept |
| Masking.ReplaceWithSpansXml | src/pii/mod.rs:738-779 | the loop gives text and vault of the masking specification, keeps the invariant and every mapping |
| Passes.SynthesizedTextStays | src/pii/mod.rs:755-759 | a pass over synthetics returns text and vault as they are |
| Passes.PassesNeverChain | src/pii/mod.rs:738-779 | over every run of passes, no text that was a synthetic when its span was reached becomes an original |
| Passes.NewVaultNeverChains | src/pii/mod.rs:738-779 | so in a vault filled by passes no original was a synthetic before |
| Passes.DisplayIsFinal | src/pii/mod.rs:760-770 | the display in a token is the synthetic of its text in the final vault |
| Passes.PassRecords | src/pii/synth.rs:20-55 | every row a pass adds has the text, type, tier and confidence of a span and the synthetic generated for the row's number |
| RoundTrip.MaskKeeps | src/pii/mod.rs:738-779 | masking keeps the vault's invariant and every mapping |
| RoundTrip.TokenStays | src/pii/vault.rs:300-306 | a token written early is still known at the end, even if ids collide |
| RoundTrip.MaskThenUnmask | src/pii/mod.rs:738-779 | the cascade with the final vault over the masked text returns the text, for spans that are no synthetics when their turn comes |
| RoundTrip.MaskThenStream | src/pii/buffer.rs:45-147 | the masked text streamed back, cut anywhere but inside a `<pii`, returns the text |
| RoundTrip.MaskStoresNoIds | src/pii/synth.rs:20-55 | a masking pass appends records without token ids to those the vault had |
| RoundTrip.RestoredVaultForgetsTokens | src/pii/vault.rs:199-232 | after saving and restoring, every token resolves as it would have without the pass; in a vault without stored ids, to itself |
| Instance.OneByteRoundTrip | src/pii/mod.rs:738-779 | the conditions of the laws are met: one masked byte streams back, wherever its token is cut behind `<pii` |
| Instance.OneByteLost | src/pii/mod.rs:738-779 | the same token, cut anywhere inside its `<pii`, does not come back |
| Text.ValueOfFormat | src/proxy/intercept/framing.rs:148-154 | digits written in base 10 or 16 have the value they were written for |
| Text.ValueOfLower | src/proxy/intercept/framing.rs:60 | letters count the same in either case |
| Text.ParseOfSpelling | src/proxy/intercept/framing.rs:60 | a number is read in any spelling, with a plus sign, zeros and letters of either case, and refused if it does not fit |
| Text.ParseIff | src/proxy/intercept/framing.rs:60 | exactly nonempty digit strings that fit, with or without a plus sign, are numbers |
| Text.ParseOfFormat | src/proxy/intercept/framing.rs:39-47 | parsing a formatted 64-bit number gives it back |
| Text.AsciiIsUtf8 | src/proxy/intercept/framing.rs:104-112 | ASCII headers always take the UTF-8 path |
| Chunked.ChunkedDecoder.constructor | src/proxy/intercept/framing.rs:189-191 | a new decoder waits for a size line |
| Chunked.ChunkedDecoder.Push | src/proxy/intercept/framing.rs:194-241 | output and state after a push |
| Chunked.DrainSplits | src/proxy/intercept/framing.rs:194-241 | before the terminal chunk, draining early makes no difference |
| Chunked.EndSwallows | src/proxy/intercept/framing.rs:211-212 | once the terminal chunk is in the buffer, whatever follows in the same push is swallowed |
| Chunked.PushSplitsIff | src/proxy/intercept/framing.rs:194-241 | two pushes equal one, in output and state, exactly when the first does not reach the terminal chunk, or nothing or another terminal chunk follows |
| Chunked.BadSizeStopsForGood | src/proxy/intercept/framing.rs:206-219 | behind a size line that is no size, whatever is pushed, nothing comes out and everything is kept |
| Chunked.SizeIff | src/proxy/intercept/framing.rs:206-219 | exactly the lines of UTF-8 text whose part in front of the first semicolon trims to a number have a size |
| Chunked.SizeOfLine | src/proxy/intercept/framing.rs:206-219 | a size in hexadecimal digits of either case, behind zeros, with blanks around and extensions behind, is read |
| Chunked.AnySplit | src/proxy/intercept/framing.rs:194-241 | a complete message gives the same payload under every split into pushes |
| Chunked.WireDrains | src/proxy/intercept/framing.rs:194-241 | a message with its sizes written in any of these ways decodes to its payload |
| Chunked.EncodedDrains | src/proxy/intercept/framing.rs:148-154 | so do chunks that the proxy itself writes |
| Chunked.EveryCutOfWireDecodes | src/proxy/intercept/framing.rs:194-241 | every split of such a message into pushes outputs exactly the payload |
| Chunked.EveryCutDecodes | src/proxy/intercept/framing.rs:148-154 | so does every split of what the proxy writes |
| Chunked.DecodeChunkedBody | src/proxy/intercept/framing.rs:51-68 | the one-shot loop, with its stop in the middle of a body and its failure on bad input |
| Chunked.OneShotIsDrain | src/proxy/intercept/framing.rs:51-68 | on every input the one-shot decoder succeeds exactly when the incremental one reaches the terminal chunk, with the same payload |
| Chunked.OneShotPanicsIff | src/proxy/intercept/framing.rs:51-68 | the one-shot decoder panics exactly when the incremental one would stop behind a body without its whole CRLF, or in one too long for any address |
| Chunked.ShortChunkPanics | src/proxy/intercept/framing.rs:56-65 | it panics on a chunk of size 8 that holds `ab` |
| Chunked.OneShotDecodesWire | src/proxy/intercept/framing.rs:51-68 | the one-shot decoder returns the payload of every such message |
| Chunked.OneShotDecodes | src/proxy/intercept/framing.rs:148-154 | and of what the proxy writes |
| Sse.FindDoubleNewline | src/parser/sse.rs:73-91 | the loop finds the first separator of either kind |
| Sse.SeparatorStable | src/parser/sse.rs:73-91 | the first separator does not move when bytes are added |
| Sse.ParseEventBlock | src/parser/sse.rs:93-113 | type and joined data of a block, none without data or with bad UTF-8 |
| Sse.SseParser.constructor | src/parser/sse.rs:15-17 | a new parser holds nothing |
| Sse.SseParser.Push | src/parser/sse.rs:20-54 | events and residual buffer after a push |
| Sse.SplitIsChunkIndependent | src/parser/sse.rs:20-54 | two pushes give the events and the residue of one push of both |
| Sse.PipeIsSplit | src/proxy/intercept/framing.rs:172-180 | decoder and splitter in sequence give the events of the decoded payload |
| Sse.FramedStreamGivesPayloadEvents | src/proxy/intercept/framing.rs:172-180 | every split of a well-formed chunked stream gives the events of its bare payload |
| Sse.JoinReadsBack | src/parser/sse.rs:93-113 | data lines are joined by line feeds |
| Sse.BlockParses | src/parser/sse.rs:93-113 | a block of fields with any blanks around their values, and other lines, ended by LF or CRLF, parses to its last type and its data lines, to nothing without data |
| Sse.BrokenBlockIsDropped | src/parser/sse.rs:20-54 | a block that is not UTF-8 is dropped and nothing else with it |
| Sse.WiresSplit | src/parser/sse.rs:20-54 | written blocks, each with either kind of line end, are split back one for one |
| Sse.EventsSurviveTheWire | src/proxy/intercept/framing.rs:172-180 | events written, chunked in any way and cut in any way are received one for one |
| Requests.FindHeaderEnd | src/proxy/intercept/framing.rs:30-37 | the offset behind the first blank line |
| Requests.ParseContentLength | src/proxy/intercept/framing.rs:39-47 | the number in the first Content-Length line, none if that line holds no number or the header is not UTF-8 |
| Requests.RebuildRequestWithContentLength | src/proxy/intercept/framing.rs:102-143 | the line loop, its non-UTF-8 path and its step past the end |
| Rebuild.BlockOfLines | src/proxy/intercept/framing.rs:102-143 | every header block is a nonempty list of lines and a blank line |
| Rebuild.ExchangedLines | src/proxy/intercept/framing.rs:115-141 | the loop keeps exactly the lines that are not one of the three fields, in order, and adds the new ones |
| Rebuild.LinesOfBlock | src/proxy/intercept/framing.rs:39-47 | a block's lines are read back by the line splitter |
| Rebuild.BlankBehind | src/proxy/intercept/framing.rs:30-37 | the first blank line of a block is the one behind its lines |
| Rebuild.RebuiltReparses | src/proxy/intercept/framing.rs:102-143 | the rebuilt header ends where the body starts, states its length, is not chunked, and has all other lines in order |
| Rebuild.LeadingBlankLosesHeader | src/proxy/intercept/framing.rs:130-136 | a block that starts with a blank line is rebuilt without any of its lines |
| Headers.DroppedIff | src/proxy/intercept/framing.rs:121-127 | exactly the fields named transfer-encoding, content-length and accept-encoding, in any case, are dropped |
| Headers.HeaderOfLines | src/proxy/intercept/framing.rs:30-47 | a header made of lines ends at its end, and length and coding are those of its lines |
| Headers.FirstLengthDecides | src/proxy/intercept/framing.rs:39-47 | the first length field alone decides, whatever it holds and whatever follows |
| Headers.LengthIsRead | src/proxy/intercept/framing.rs:43-44 | a length is read in any decimal spelling, with blanks around; beyond 64 bits it counts as none |
| Headers.ChunkedLineIff | src/proxy/intercept/framing.rs:71-77 | exactly the transfer-encoding fields with the word `chunked` announce chunks |
| Headers.ChunkedHeader | src/proxy/intercept/framing.rs:71-77 | a header that announces chunks and has no length field frames its body by chunks |
| Headers.BrokenHeader | src/proxy/intercept/framing.rs:39-77 | a header that is not UTF-8 frames nothing and is rebuilt as it is |
| Headers.PostIsServed | src/proxy/intercept/c2u.rs:210-267 | the request `POST / HTTP/1.1`, `Transfer-Encoding: chunked` with the chunk `ab` is taken off once, however it is cut, with the body `ab` |
| RequestLoop.Connection.constructor | src/proxy/intercept/c2u.rs:210-212 | a connection starts with an empty buffer and idle framing |
| RequestLoop.Connection.OnRead | src/proxy/intercept/c2u.rs:230-267 | buffer, framing and extracted request after one read, or the death of the task; every slice of the buffer is in range |
| RequestLoop.StepIsConsistent | src/proxy/intercept/c2u.rs:230-267 | after every read the framing is that of the buffer; in particular the bytes received are those behind the header |
| RequestLoop.ConsumedInRange | src/proxy/intercept/c2u.rs:259-267 | a finished request lies inside the buffer |
| RequestLoop.StepConserves | src/proxy/intercept/c2u.rs:421-424 | one read loses and invents no byte |
| RequestLoop.RunConserves | src/proxy/intercept/c2u.rs:210-267 | in every run the drained slices followed by the buffer are the bytes read: all that came, or those up to the death of the task |
| RequestLoop.LoopDiesIff | src/proxy/intercept/c2u.rs:259-267 | a read kills the task exactly when it completes a chunked request on whose body the decoder panics |
| RequestLoop.ShortChunkKills | src/proxy/intercept/c2u.rs:259-267 | any chunked request with a chunk of size 8 that holds `ab` does |
| RequestLoop.StepOnRequests | src/proxy/intercept/c2u.rs:230-267 | on a stream of requests, with lengths or chunked, one read completes the first one, with its decoded body, or takes nothing |
| RequestLoop.RequestsInOrder | src/proxy/intercept/c2u.rs:210-267 | under any split of such a stream, the drained slices are exactly the first requests, in order, each once, with its decoded body |
| RequestLoop.RequestsDrained | src/proxy/intercept/c2u.rs:210-267 | exactly how many: with each read at most one more than before, and never more than have arrived |
| RequestLoop.OneReadServesOne | src/proxy/intercept/c2u.rs:421-424 | of requests that arrive together in one read one is drained and the others stay in the buffer |
| RequestLoop.OneIsServed | src/proxy/intercept/c2u.rs:210-267 | one request, however it is cut, is taken off once with its own body |
| RequestLoop.BodyEndInStream | src/proxy/intercept/framing.rs:82-96 | the end of a chunked body is seen exactly when all of it is in the buffer, and there |
| RequestLoop.StepOnChunked | src/proxy/intercept/c2u.rs:230-267 | what a read does to a chunked request with any body: its decoded body, its raw body if it is malformed, or the death of the task |
| RequestLoop.EmptyChunkedBody | src/proxy/intercept/framing.rs:82-96 | an empty chunked body is decoded as empty, and the request is cut where it ends exactly when no other end of a chunked body follows it in the buffer |
| RequestLoop.ServedWholeIff | src/proxy/intercept/framing.rs:82-96 | a chunked request alone is served whole exactly if its last chunk is a bare `0` and the bytes of its end stand nowhere earlier |
| RequestLoop.OddLastChunk | src/proxy/intercept/framing.rs:82-96 | a last chunk written otherwise is never served whole |
| RequestLoop.BodylessTakesAll | src/proxy/intercept/c2u.rs:251-267 | a request without a length, its header read in any number of reads, takes all that is in the buffer, and is cut right exactly when nothing follows it |
| Sni.PeekSni | src/proxy/network.rs:224-280 | on arbitrary bytes the parser stays in bounds, ends, and returns the name of the specification |
| Sni.ReadsExtension | src/proxy/network.rs:260-268 | type, length and data of a written extension are read back |
| Sni.ExtensionsParse | src/proxy/network.rs:260-280 | the extension loop returns the first server_name of any written list |
| Sni.TotalIsNoLimit | src/proxy/network.rs:254-280 | a total that ends behind the header of a server_name extension does not cut its data short |
| Sni.ServerNameIff | src/proxy/network.rs:260-280 | a name is taken exactly if its type is host_name, all of it is there and it is UTF-8 |
| Sni.HelloParses | src/proxy/network.rs:241-280 | session id, cipher suites and compression methods are skipped exactly |
| Sni.RecordParses | src/proxy/network.rs:224-238 | record and handshake headers are taken off exactly |
| Sni.SniInverts | src/proxy/network.rs:224-280 | for every ClientHello in one record the host of the first server_name extension is returned, nothing if there is none |
| Sni.HelloStable | src/proxy/network.rs:224-238 | once a hello is complete, more bytes change nothing |
| Dns.BuildDnsAQuery | src/proxy/network.rs:435-450 | header, length-prefixed labels, root and question tail |
| Dns.LabelsAreTheHost | src/proxy/network.rs:442-445 | the labels are the host name cut at all its dots and nowhere else |
| Dns.ParseFirstARecord | src/proxy/network.rs:454-507 | on arbitrary bytes every access is in bounds and the result is that of the specification |
| Dns.SkipsName | src/proxy/network.rs:465-473 | a name of labels of 1 to 63 bytes is skipped exactly, in questions and in answers |
| Dns.QuestionIsSkipped | src/proxy/network.rs:465-474 | skipping the question lands exactly behind what the query builder wrote |
| Dns.QueryReadsBack | src/proxy/network.rs:435-450 | the query read back: recursion desired, one question, the labels of the host, type A, class IN |
| Dns.SkipsToPointer | src/proxy/network.rs:465-472 | a pointer ends the name of a question |
| Dns.FindsFirstA | src/proxy/network.rs:477-507 | over any list of answers, named by pointers or labels, the first A record is found |
| Dns.ResponseParses | src/proxy/network.rs:454-507 | for every well-formed response the first A record is returned, nothing if there is none |
| Dns.AnswerStable | src/proxy/network.rs:454-507 | an address found in a part of a response is the one found in the whole, whatever the bytes |
| Luhn.LuhnCheckDigit | src/pii/synth.rs:224-234 | appending the computed digit makes the validator's sum divisible by ten |
| Luhn.LuhnValid | src/pii/tier1.rs:302-322 | 13 to 19 digits, everything else skipped, sum divisible by ten |
| Luhn.SeparatorsAreSkipped | src/pii/tier1.rs:302-305 | separators anywhere in a number make no difference |
| Luhn.GenCreditCard | src/pii/synth.rs:114-123 | every generated card has 16 digits, keeps the brand digit and passes the validator |
| Luhn.BrandIsFirstDigit | src/pii/synth.rs:114-117 | the brand digit is the first digit of the original, or 4 |
| Luhn.CheckDigitIsUnique | src/pii/synth.rs:224-234 | only one digit completes a number |
| Luhn.SingleErrorCaught | src/pii/tier1.rs:302-322 | changing any single digit of a valid number makes it invalid |
| Luhn.TranspositionCaughtIff | src/pii/tier1.rs:302-322 | swapping neighbours makes a valid number invalid exactly unless they are equal or 0 and 9 |
| Config.Recurse | src/config.rs:352-383 | the merged document, and as report exactly the dotted paths where the patch meets a different value, fields in the order of their names |
| Config.DottedIs | src/config.rs:362-366 | a place is written by its names with dots between them, empty names in front left out |
| Config.PrecedesIff | src/config.rs:361 | names are ordered by the first character in which they differ, and before their extensions |
| Config.MergeTwice | src/config.rs:352-383 | a patch applied again changes nothing |
| Config.NothingTwice | src/config.rs:352-383 | a patch applied again reports nothing |
| Config.OffPatchUntouched | src/config.rs:352-383 | a path that leaves the patch through a common object keeps its value |
| Config.OnPatchFound | src/config.rs:352-383 | on every other path the result is the patch's: leaves are found, nothing is below them, objects are merged or placed |
| Config.ReportedChanges | src/config.rs:371-376 | a reported place now holds the patch's value and held another one before |
| Config.ChangeIsReported | src/config.rs:371-376 | a path that shows another value than before lies at or below a reported place |
| Config.ReportIsEmptyIff | src/config.rs:352-383 | nothing is reported exactly when no path shows another value than before |
| Config.UnchangedIff | src/config.rs:352-383 | the document is unchanged exactly when nothing is reported and no null is set in a missing field |
| Config.SilentNull | src/config.rs:367-376 | a null set in a missing field adds it and is not reported |
| Config.ConfigManager.constructor | src/config.rs:297-302 | the manager starts with the given settings |
| Config.ConfigManager.Patch | src/config.rs:313-336 | a patch is applied as a whole or rejected without effect; exactly when each outcome is given, the restart flag and the report |
| Config.RestartIff | src/config.rs:429-433 | no restart is asked for exactly if all three addresses stay |
| Config.RunKeepsTierRule | src/config.rs:413-419 | over every run of patches, from settings that satisfy it, NER stays off without regex |
| Config.PatchAgain | src/config.rs:313-336 | the same patch again keeps the settings and reports nothing, if they encode to the merged document |
| Calendar.YearStep | build.rs:85-87 | the closed-form day number grows by the length of the year, leap years included |
| Calendar.MonthStep | build.rs:66-70 | the closed-form month offset agrees with the month table |
| Calendar.EpochToDate | build.rs:49-83 | for every time, the loops end in a valid date whose closed-form Gregorian day number gives the day count back, and the text is that date's |
| Calendar.TextReadsBack | build.rs:81-82 | year, month and day are read back from the text, with hyphens between them |
| Calendar.TextsDiffer | build.rs:81-82 | different dates are written differently |
| Calendar.NumbersFollowCalendar | build.rs:49-83 | day numbers order dates as the calendar does, so that date is the only one |

## Left out

- Sockets, TLS, tasks, timeouts, files, dashboard, tray, command line, installers, model download.
- Regular expressions, NER, the language model, SHA, the random generator and JSON parsing: their results are inputs.
- The upstream-to-client half of the proxy and its event rewriting are not part of this model.
- Substitution of language-model findings before masking (src/pii/mod.rs:226-249): its offsets and ids do not agree.
- The filter by exclusion zones (src/pii/mod.rs:716-728) and the replacement without tokens: easy members only.
- Uniqueness of token ids across messages: it does not hold (`Masking.IdsCollide`), and the round trip does not need it.
- CPF generation, whose second digit omits a term.
- The passthrough loop (src/proxy/intercept/c2u.rs:139-154), which sends pipelined leftovers twice.
- RequestLoop.RequestsInOrder: for chunked bodies in which the bytes of the end stand at the end only; `RequestLoop.StepOnChunked` says what happens to any other body, and `RunConserves` covers it.
- Vault.BestKey: ignores empty keys, which the real matcher would match between all bytes.
- VaultStore.PiiVault.RebuildAutomaton: building the matcher never fails.
- VaultStore.PiiVault.MergeFrom: target and source are different vaults, as in the registry.
- Nested.StreamsAgreeIff: asks that keys and originals are apart and that no original lies in another one. Without the first, streams can disagree without any nested keys, which `Reread.KeyAgreesIff` makes exact for one key; without the second, a key inside another one can agree by coincidence, which `Nested.NestedKeysAgreeIff` makes exact for one pair.
- Registry: modelled on values; locks are the atomicity of its steps, and expiry is a step that may remove any set of conversations. What callers write to a vault they were given is not part of the protocol; `Vault.RunKeeps` covers it.
- Masking.Mask: a span that begins or ends inside a character, which no detector reports, would panic in the original and is cut out byte for byte here.
- Spans.MergeSpans: confidences are reals, so there is no NaN.
- Requests.IsChunked: lower-casing is that of ASCII, so the Kelvin sign, which lower-cases to `k`, does not count as a letter of `chunked`. The field names looked for have no `k`, and no other character lower-cases to a letter of theirs alone.
- Rebuild.RebuiltReparses: for blocks that do not start with a blank line; `Rebuild.LeadingBlankLosesHeader` says what happens to the others.
- Chunked.OneShotIsDrain: for inputs that fit in the address space, as all do; sizes beyond it are covered.
- Config.Recurse: floats are reals.
- Config.PatchAgain: one direction only, because the encoding of settings is a parameter.
- Luhn.LuhnCheckDigit: the 32-bit sum does not overflow on the 15 digits it is called with, and is unbounded here.
