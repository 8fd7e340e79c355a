# Sone core, modelled in Dafny

Sone is a Freenet plugin: a small social network whose users ("Sones")
write posts and replies, follow each other, like and bookmark posts, and
publish their Sone to Freenet. This project models, as pure functions over
immutable data, the parts of Sone that decide things:

- the **modification detector**, which decides when a local Sone may be
  inserted: a change has to be seen twice, stay stable for the insertion
  delay, and the Sone must not be locked (`SoneModificationDetector`);
- one iteration of the **Sone inserter's** loop, as its tests fix it:
  the events posted, the insert call, the metrics and the configuration
  touch (`SoneInserter`);
- the **debounced "Sone locked" notification**: a lock arms a five-minute
  timer that an unlock or a newer lock cancels (`SoneLockedHandler`), and
  the **local reply** notification list (`LocalReplyHandler`);
- the **JSON answer** of AJAX pages as a map builder (`JsonReturnObject`);
- the guard chain of **template pages** (`FreenetTemplatePage`);
- the **pages** that view a post, list new posts, browse images and
  delete a post (`ViewPostPage`, `NewPage`, `ImageBrowserPage`,
  `DeletePostPage`);
- the **AJAX pages** that mark things known, bookmark and unbookmark,
  follow a Sone, delete a profile field and dismiss a notification, and
  the FCP command that likes a post (`LikePostCommand`).

Shared modules: `Wrappers` (an `Option`), `Numbers` (Java `int`/`long`
ranges, `long` wrap-around, truncating division, Kotlin `toIntOrNull`,
decimal writing), `Data` (Sones, posts, replies, albums, profile fields,
notifications, and a `Store` standing for the core and the web interface),
`Web` (a request: method, full access, parameters, form parts), `Ajax` (an
answer: success or an error code), `Ordering` (a stable insertion sort by
a total preorder, string comparison) and `ListNotification` (the element
list of a list notification).

Each handler takes the store and the request and returns the new store
with its answer, so "nothing else changes" is stated by equations over
the store. Event-driven components are step functions with a `Run` over
event sequences. Time is an input: the detector reads the ticker value as
a parameter, and timers of the lock handler are events.

The detector stores the time of the last change as a nullable `Long`. After
a locked check the time is null and the check fingerprint is `""`; a later
unlocked check whose fingerprint is `""` (and not the inserted one) then
subtracts a null time. The model makes this an explicit outcome
(`NullTime`) rather than excluding it, and `NullTimeOnlyForEmptyFingerprint`
shows that nothing else reaches it. The inserter treats that outcome like
any other exception from the detector: it is caught and the loop goes on.

## Model

| member | source | states |
|---|---|---|
| SoneModificationDetector.Check | src/main/java/net/pterodactylus/sone/core/SoneModificationDetector.java:40-58 | A locked Sone is never eligible and resets the check fingerprint to "" and the time to none; the fingerprint of the last insert is never eligible and clears the time; a fingerprint not seen at the last check records the time and is not eligible, while one seen at the last check keeps the state so the delay runs from its first sighting; otherwise the answer is "eligible" exactly when the whole seconds since the recorded time reach the delay, and the null-time exception happens exactly when no time is recorded; the last insert fingerprint never changes |
| SoneModificationDetector.SetFingerprint | src/main/java/net/pterodactylus/sone/core/SoneModificationDetector.java:64-68 | Afterwards the last insert fingerprint and the last check fingerprint are both the given one and no time is recorded |
| SoneModificationDetector.IsModified | src/main/java/net/pterodactylus/sone/core/SoneModificationDetector.java:74-76 | Modified exactly when the current fingerprint differs from the last insert fingerprint, and always when nothing was inserted yet |
| SoneModificationDetector.FreshIsReachable | src/main/java/net/pterodactylus/sone/core/SoneModificationDetector.java:33-38 | A new detector has no fingerprints and no time, which is a reachable state |
| SoneModificationDetector.CheckPreservesReachable | src/main/java/net/pterodactylus/sone/core/SoneModificationDetector.java:40-58 | Checks keep the invariant that, with no time recorded, the check fingerprint is the inserted one or the empty marker of a locked check |
| SoneModificationDetector.SetFingerprintPreservesReachable | src/main/java/net/pterodactylus/sone/core/SoneModificationDetector.java:64-68 | Setting the fingerprint keeps that invariant |
| SoneModificationDetector.NullTimeOnlyForEmptyFingerprint | src/main/java/net/pterodactylus/sone/core/SoneModificationDetector.java:41-57 | From any reachable state, the missing-time exception needs an unlocked check of the empty fingerprint after a locked check, with "" not the last inserted fingerprint |
| SoneModificationDetector.NullTimeAfterLockedCheck | src/main/java/net/pterodactylus/sone/core/SoneModificationDetector.java:41-45 | A locked check followed by an unlocked check of fingerprint "" reaches the subtraction with no recorded time |
| SoneModificationDetector.FirstCheckIsNotEligible | src/main/java/net/pterodactylus/sone/core/SoneModificationDetector.java:37 | The first unlocked check of a fresh detector records the time and says not eligible |
| SoneModificationDetector.ElapsedSecondsReachDelay | src/main/java/net/pterodactylus/sone/core/SoneModificationDetector.java:70-72 | For a forward-running ticker, the truncated seconds reach the delay exactly when the nanoseconds elapsed reach the delay times 10^9 |
| SoneModificationDetector.SeenTwiceAndStable | src/main/java/net/pterodactylus/sone/core/SoneModificationDetector.java:52-57 | A new fingerprint seen once and then again unchanged becomes eligible exactly when the delay has passed between the two checks |
| SoneModificationDetector.SetFingerprintThenCheck | src/main/java/net/pterodactylus/sone/core/SoneModificationDetector.java:64-76 | Right after setting a fingerprint the Sone is not modified for that fingerprint, is modified for any other, and a check of that fingerprint is not eligible |
| SoneModificationDetector.BackwardsTickerTruncatesTowardZero | src/main/java/net/pterodactylus/sone/core/SoneModificationDetector.java:71 | Half a second backwards counts as zero whole seconds (truncation), where floor division would give -1 |
| SoneInserter.OnInsertionDelayChanged | src/test/kotlin/net/pterodactylus/sone/core/SoneInserterTest.kt:52-58 | The shared insertion delay reads back as the value of the last change event |
| SoneInserter.Stop | src/test/kotlin/net/pterodactylus/sone/core/SoneInserterTest.kt:92-97 | Stopping sets the stop flag and changes nothing else |
| SoneInserter.StopIsIdempotent | src/test/kotlin/net/pterodactylus/sone/core/SoneInserterTest.kt:92-97 | Stopping twice is stopping once |
| SoneInserter.IsModified | src/test/kotlin/net/pterodactylus/sone/core/SoneInserterTest.kt:70-83 | The inserter is modified exactly when its detector says so |
| SoneInserter.SetLastInsertFingerprint | src/test/kotlin/net/pterodactylus/sone/core/SoneInserterTest.kt:85-90 | The last insert fingerprint reads back as the one set, the Sone is then not modified for it, and only the detector changes |
| SoneInserter.AskDetector | src/main/java/net/pterodactylus/sone/core/SoneModificationDetector.java:40-58 | The inserter sees "eligible" exactly when the detector decides so, and an exception exactly when the detector meets no recorded time |
| SoneInserter.Step | src/test/kotlin/net/pterodactylus/sone/core/SoneInserterTest.kt:99-203 | One loop iteration: a stop, an unknown Sone or a terminated loop exits without events or inserts; a Sone that is not eligible, or whose check threw, is polled again: the iteration changes nothing and the loop goes on; an eligible Sone posts Inserting and then Inserted or Aborted for the same Sone and calls the insert once; every insert adds to exactly one of the duration histogram and the error meter; a successful insert without a stop touches the configuration once, teaches the detector the new fingerprint and keeps the loop going, and these are the only touches; a stop during an insert, successful or not, touches nothing, leaves the detector alone and ends the loop; events are only ever appended |
| SoneInserter.NewInserterIsConsistent | src/test/kotlin/net/pterodactylus/sone/core/SoneInserterTest.kt:99-119 | A new inserter has no events and all counters at zero, which is consistent |
| SoneInserter.StepPreservesConsistent | src/test/kotlin/net/pterodactylus/sone/core/SoneInserterTest.kt:99-182 | Events stay in pairs of Inserting and a terminal event for the same Sone, two per insert; the histogram counts the Inserted events, the meter the Aborted ones, and touches never exceed successful inserts |
| SoneInserter.RunPreservesConsistent | src/test/kotlin/net/pterodactylus/sone/core/SoneInserterTest.kt:99-182 | The same holds after any sequence of iterations |
| SoneInserter.Run | src/test/kotlin/net/pterodactylus/sone/core/SoneInserterTest.kt:143-160 | The loop over any sequence of iterations only appends events and insert calls, never forgets a stop, and does nothing once it has returned |
| SoneInserter.RunAppend | src/test/kotlin/net/pterodactylus/sone/core/SoneInserterTest.kt:143-160 | Running two stretches of iterations one after the other is running them together, so the loop is a fold over its iterations |
| SoneInserter.StoppedBeforeRunDoesNothing | src/test/kotlin/net/pterodactylus/sone/core/SoneInserterTest.kt:92-97 | A run started after stop posts nothing, inserts nothing, touches nothing and exits |
| SoneInserter.TerminatedStaysTerminated | src/test/kotlin/net/pterodactylus/sone/core/SoneInserterTest.kt:92-97 | Once the loop has exited, further iterations change nothing |
| SoneInserter.IneligibleRunsInsertNothing | src/test/kotlin/net/pterodactylus/sone/core/SoneInserterTest.kt:143-160 | If the detector never says eligible, no event is posted, no insert is made and nothing is touched |
| SoneInserter.EligibleInsertSucceeds | src/test/kotlin/net/pterodactylus/sone/core/SoneInserterTest.kt:99-119 | An eligible Sone is inserted with Inserting then Inserted, the configuration is touched, and a stop at that point ends the loop |
| SoneInserter.StoppedDuringSuccessfulInsert | src/test/kotlin/net/pterodactylus/sone/core/SoneInserterTest.kt:121-141 | A stop during a successful insert still posts Inserted but does not touch the configuration |
| SoneInserter.FailedInsertRecordsError | src/test/kotlin/net/pterodactylus/sone/core/SoneInserterTest.kt:162-182 | A failed insert posts Inserting then Aborted, records one error and no duration, and touches nothing; when a stop came during it, the loop ends and further iterations change nothing |
| SoneInserter.UnknownSoneAndDetectorExceptions | src/test/kotlin/net/pterodactylus/sone/core/SoneInserterTest.kt:184-203 | An unknown Sone ends the loop; a detector exception is caught and the loop continues |
| SoneLockedHandler.OnLocked | src/main/kotlin/net/pterodactylus/sone/web/notification/SoneLockedHandler.kt:40-47 | The Sone is appended to the list, any earlier timer is replaced by a new one, and nothing is shown yet |
| SoneLockedHandler.OnUnlocked | src/main/kotlin/net/pterodactylus/sone/web/notification/SoneLockedHandler.kt:49-55 | The Sone leaves the list, every other entry stays in its place as often as before, and the timer is cancelled |
| SoneLockedHandler.OnTimerFires | src/main/kotlin/net/pterodactylus/sone/web/notification/SoneLockedHandler.kt:45-63 | Only the live timer shows the notification, once; a cancelled timer changes nothing |
| SoneLockedHandler.Step | src/main/kotlin/net/pterodactylus/sone/web/notification/SoneLockedHandler.kt:40-63 | Each event keeps the handler valid, and only the firing of the live timer shows anything |
| SoneLockedHandler.AtMostOneShowPerLock | src/main/kotlin/net/pterodactylus/sone/web/notification/SoneLockedHandler.kt:40-63 | Over any event sequence the notification is shown at most once per locked event |
| SoneLockedHandler.NoLiveTimerNoShow | src/main/kotlin/net/pterodactylus/sone/web/notification/SoneLockedHandler.kt:49-63 | With no live timer and no further locked event, nothing is ever shown |
| SoneLockedHandler.LockedThenUnlockedShowsNothing | src/main/kotlin/net/pterodactylus/sone/web/notification/SoneLockedHandler.kt:40-55 | Locked then unlocked shows nothing, whatever timers fire, and the Sone is not listed |
| SoneLockedHandler.PendingUnchangedByTimers | src/main/kotlin/net/pterodactylus/sone/web/notification/SoneLockedHandler.kt:61-63 | Timer firings never change the list |
| SoneLockedHandler.LockedThenTimerShowsOnce | src/main/kotlin/net/pterodactylus/sone/web/notification/SoneLockedHandler.kt:40-63 | Locked followed by the timer shows the notification exactly once with the Sone listed |
| SoneLockedHandler.RelockCancelsEarlierTimer | src/main/kotlin/net/pterodactylus/sone/web/notification/SoneLockedHandler.kt:44-45 | A second lock cancels the first timer: only the second one shows |
| LocalReplyHandler.OnNewReplyFound | src/main/kotlin/net/pterodactylus/sone/web/notification/LocalReplyHandler.kt:32-54 | A reply of a remote Sone changes nothing; a local one is appended and is shown exactly when there is no first-start notification |
| LocalReplyHandler.OnReplyGone | src/main/kotlin/net/pterodactylus/sone/web/notification/LocalReplyHandler.kt:41-49 | The reply leaves the list, all other replies stay in their order as often as before, and nothing is shown |
| LocalReplyHandler.RunKeepsOnlyLocal | src/main/kotlin/net/pterodactylus/sone/web/notification/LocalReplyHandler.kt:32-54 | Over any event sequence the list holds replies of local Sones only |
| LocalReplyHandler.FoundThenGone | src/main/kotlin/net/pterodactylus/sone/web/notification/LocalReplyHandler.kt:32-49 | A local reply found and then removed or marked known is no longer listed |
| ListNotification.Add | src/main/kotlin/net/pterodactylus/sone/web/notification/LocalReplyHandler.kt:35 | Adding keeps the list and puts the new element last |
| ListNotification.Remove | src/main/kotlin/net/pterodactylus/sone/web/notification/LocalReplyHandler.kt:41-49 | Removing takes out every occurrence of the element and keeps every other element |
| ListNotification.RemoveAppend | src/main/kotlin/net/pterodactylus/sone/web/notification/LocalReplyHandler.kt:41-49 | Removing from a concatenation removes from each part, so the remaining elements keep their order |
| ListNotification.RemoveCounts | src/main/kotlin/net/pterodactylus/sone/web/notification/LocalReplyHandler.kt:41-49 | After removing, the element occurs no more and every other element occurs as often as before |
| ListNotification.RemoveUndoesAdd | src/main/kotlin/net/pterodactylus/sone/web/notification/SoneLockedHandler.kt:40-55 | Removing an element after adding it gives the same list as removing it without adding it |
| Web.Parameter | src/main/kotlin/net/pterodactylus/sone/web/pages/ViewPostPage.kt:18-19 | A parameter is present exactly when it was sent, with the value sent |
| Web.GetParam | src/test/kotlin/net/pterodactylus/sone/web/pages/WebPageTest2.kt:99 | The parameter sent, or the empty string when it is missing |
| Web.PartFailsafe | src/test/kotlin/net/pterodactylus/sone/web/pages/WebPageTest2.kt:108 | The form part, a prefix of what was sent: all of it when it fits within the limit, exactly the first limit characters when it is longer, and the empty string when missing |
| JsonReturnObject.New | src/main/java/net/pterodactylus/sone/web/ajax/JsonReturnObject.java:38-40 | A new object has the given success flag and no content |
| JsonReturnObject.Put | src/main/java/net/pterodactylus/sone/web/ajax/JsonReturnObject.java:94-97 | The key maps to the value, the key set grows by that key, other keys keep their values, success is kept |
| JsonReturnObject.PutBoolean | src/main/java/net/pterodactylus/sone/web/ajax/JsonReturnObject.java:55-57 | The key holds a boolean node of the value; nothing else changes |
| JsonReturnObject.PutInt | src/main/java/net/pterodactylus/sone/web/ajax/JsonReturnObject.java:68-70 | The key holds an int node of the value; nothing else changes |
| JsonReturnObject.PutString | src/main/java/net/pterodactylus/sone/web/ajax/JsonReturnObject.java:81-83 | The key holds a text node of the value; nothing else changes |
| JsonReturnObject.PutOverwrites | src/main/java/net/pterodactylus/sone/web/ajax/JsonReturnObject.java:94-97 | A second put under the same key overwrites the first |
| JsonReturnObject.PutsUnderDifferentKeysCommute | src/main/java/net/pterodactylus/sone/web/ajax/JsonReturnObject.java:94-97 | Puts under different keys commute |
| JsonReturnObject.ChainedPutsKeepSuccess | src/main/java/net/pterodactylus/sone/web/ajax/JsonReturnObject.java:38-97 | Any chain of puts keeps the success flag and the last put wins |
| FreenetTemplatePage.IsEnabled | src/main/kotlin/net/pterodactylus/sone/web/page/FreenetTemplatePage.kt:56 | A page is enabled exactly when it is not full-access-only |
| FreenetTemplatePage.Guard | src/main/kotlin/net/pterodactylus/sone/web/page/FreenetTemplatePage.kt:60-73 | The request passes the guards exactly when there is no redirect target, full access is present if required, and a POST carries the container form password (first 32 characters) |
| FreenetTemplatePage.HandleRequest | src/main/kotlin/net/pterodactylus/sone/web/page/FreenetTemplatePage.kt:60-95 | A redirect target wins, then 401 for missing full access, then the invalid-password redirect for a POST; a redirect thrown while processing redirects to its target or ""; 200 exactly when all guards pass and processing completes |
| FreenetTemplatePage.DefaultsAreOpen | src/main/kotlin/net/pterodactylus/sone/web/page/FreenetTemplatePage.kt:42-54 | By default pages are enabled, not prefix pages, except no links and have no redirect target |
| FreenetTemplatePage.GuardedRequestIgnoresProcessing | src/main/kotlin/net/pterodactylus/sone/web/page/FreenetTemplatePage.kt:60-73 | A request stopped by a guard gets the same response whatever processing would do |
| FreenetTemplatePage.OnlyPostNeedsFormPassword | src/main/kotlin/net/pterodactylus/sone/web/page/FreenetTemplatePage.kt:67-73 | The form password only matters for POST requests |
| ViewPostPage.RequestedPost | src/main/kotlin/net/pterodactylus/sone/web/pages/ViewPostPage.kt:18 | The post is the one the post parameter names, when known |
| ViewPostPage.ShortText | src/main/kotlin/net/pterodactylus/sone/web/pages/ViewPostPage.kt:26-30 | Texts up to 20 characters stay; longer ones become their first 20 characters and an ellipsis |
| ViewPostPage.PageTitle | src/main/kotlin/net/pterodactylus/sone/web/pages/ViewPostPage.kt:24-31 | The title always ends in the base title; a missing or unknown post gives only the base title; a known post gives its short text, " - ", the nice name of its Sone and " - " before it |
| ViewPostPage.HandleRequest | src/main/kotlin/net/pterodactylus/sone/web/pages/ViewPostPage.kt:17-20 | The context holds the requested post, and raw is set exactly when the raw parameter is "true" |
| ViewPostPage.ShortTextKeepsPrefix | src/main/kotlin/net/pterodactylus/sone/web/pages/ViewPostPage.kt:26-30 | The title text starts with the text cut to 20 characters, and shortening twice is shortening once |
| NewPage.NewerFirstIsTotalPreorder | src/main/kotlin/net/pterodactylus/sone/web/pages/NewPage.kt:23 | Descending time is a total preorder |
| NewPage.PostsOfReplies | src/main/kotlin/net/pterodactylus/sone/web/pages/NewPage.kt:21 | Exactly the posts of the replies whose post is present, at most one per reply |
| NewPage.PostsOfOneReply | src/main/kotlin/net/pterodactylus/sone/web/pages/NewPage.kt:21 | A single reply gives its post when that is present, and nothing otherwise |
| NewPage.PostsOfRepliesAppend | src/main/kotlin/net/pterodactylus/sone/web/pages/NewPage.kt:21 | The posts of concatenated replies are those of the first part followed by those of the second, so the reply order is kept |
| NewPage.Candidates | src/main/kotlin/net/pterodactylus/sone/web/pages/NewPage.kt:20-21 | The new posts in their order, followed by the posts of the new replies; a post is a candidate exactly when it is new or the present post of a new reply |
| NewPage.Distinct | src/main/kotlin/net/pterodactylus/sone/web/pages/NewPage.kt:22 | Same elements as the input, without duplicates, each kept at its first occurrence: the output order is the order of first occurrence in the input |
| NewPage.FirstIndex | src/main/kotlin/net/pterodactylus/sone/web/pages/NewPage.kt:22 | The position of the first occurrence of an element: it is there and nowhere before |
| NewPage.FirstIndexAppend | src/main/kotlin/net/pterodactylus/sone/web/pages/NewPage.kt:22 | Appending an element moves no first occurrence of the elements already present |
| NewPage.HandleRequest | src/main/kotlin/net/pterodactylus/sone/web/pages/NewPage.kt:19-31 | The listed posts are exactly the new posts and the present posts of new replies, without duplicates, newest first; the page size is the preference and the page index comes from the page parameter, defaulting to 0 |
| NewPage.SamePermutationSameElements | src/main/kotlin/net/pterodactylus/sone/web/pages/NewPage.kt:22-23 | Sorting keeps the elements and keeps them free of duplicates |
| NewPage.DistinctMultiplicity | src/main/kotlin/net/pterodactylus/sone/web/pages/NewPage.kt:22 | After distinct each element occurs at most once |
| NewPage.ListingIsStableSortOfDistinct | src/main/kotlin/net/pterodactylus/sone/web/pages/NewPage.kt:22-23 | Posts with the same time keep their order from the distinct candidate list (the sort is stable) |
| ImageBrowserPage.TitleOrderIsTotalPreorder | src/main/kotlin/net/pterodactylus/sone/web/pages/ImageBrowserPage.kt:34 | Ordering albums by title, compared as strings, is a total preorder |
| Ordering.Sort | src/main/kotlin/net/pterodactylus/sone/web/pages/ImageBrowserPage.kt:34 | Sorting keeps every element exactly as often as before |
| Ordering.SortIsSorted | src/main/kotlin/net/pterodactylus/sone/web/pages/ImageBrowserPage.kt:34 | For a total preorder the sorted list is in order |
| Ordering.SortIsStable | src/main/kotlin/net/pterodactylus/sone/web/pages/NewPage.kt:23 | Elements that compare equal keep their input order, as Kotlin's sortedBy and sortedByDescending promise |
| Ordering.LexPrefixFirst | src/main/kotlin/net/pterodactylus/sone/web/pages/ImageBrowserPage.kt:34 | In the title comparison a prefix comes first and a string never comes before its proper prefix |
| Ordering.LexFirstDifference | src/main/kotlin/net/pterodactylus/sone/web/pages/ImageBrowserPage.kt:34 | Otherwise the first differing character decides the title comparison |
| Ordering.LexTotal | src/main/kotlin/net/pterodactylus/sone/web/pages/ImageBrowserPage.kt:34 | Any two titles are comparable |
| Ordering.LexTransitive | src/main/kotlin/net/pterodactylus/sone/web/pages/ImageBrowserPage.kt:34 | The title comparison is transitive |
| Ordering.LexAntisymmetric | src/main/kotlin/net/pterodactylus/sone/web/pages/ImageBrowserPage.kt:34 | Titles that may each come before the other are equal |
| ImageBrowserPage.NonEmptyAlbums | src/main/kotlin/net/pterodactylus/sone/web/pages/ImageBrowserPage.kt:31-33 | The albums of the given Sones, Sone by Sone in order, with the empty ones filtered out |
| ImageBrowserPage.KeepNonEmpty | src/main/kotlin/net/pterodactylus/sone/web/pages/ImageBrowserPage.kt:33 | Exactly the non-empty albums of the input |
| ImageBrowserPage.AllAlbums | src/main/kotlin/net/pterodactylus/sone/web/pages/ImageBrowserPage.kt:32 | The albums of all given Sones, concatenated in Sone order |
| ImageBrowserPage.KeepNonEmptyAppend | src/main/kotlin/net/pterodactylus/sone/web/pages/ImageBrowserPage.kt:32-33 | Filtering a concatenation is concatenating the filtered parts, so the filter keeps the input order |
| ImageBrowserPage.KeepNonEmptyCounts | src/main/kotlin/net/pterodactylus/sone/web/pages/ImageBrowserPage.kt:33 | Each non-empty album occurs as often after the filter as before it, each empty one not at all |
| ImageBrowserPage.NonEmptyAlbumsSoneBySone | src/main/kotlin/net/pterodactylus/sone/web/pages/ImageBrowserPage.kt:31-33 | The non-empty albums of several Sones are those of the first Sone followed by those of the others |
| ImageBrowserPage.HandleRequest | src/main/kotlin/net/pterodactylus/sone/web/pages/ImageBrowserPage.kt:21-46 | The album view happens exactly when an album parameter is present; the image view exactly when an image parameter but no album parameter is present; the Sone view exactly when neither is present and the mode is not gallery; otherwise the gallery, which holds exactly the non-empty albums of all Sones sorted by title, with the page size preference and the page parameter (default 0); the Sone view shows the named Sone or else the current one |
| ImageBrowserPage.GalleryIsStableSortOfNonEmptyAlbums | src/main/kotlin/net/pterodactylus/sone/web/pages/ImageBrowserPage.kt:31-34 | Albums with equal titles keep their order from the filtered list |
| DeletePostPage.HandleRequest | src/main/kotlin/net/pterodactylus/sone/web/pages/DeletePostPage.kt:18-37 | A POST for an unknown post or a post of a remote Sone redirects to noPermission.html; confirmDelete deletes the post and redirects to the return page; abortDelete only redirects; otherwise the form is shown; a GET shows the form for a known post and redirects to noPermission.html otherwise; only a confirmed POST changes the store, and only by that post |
| DeletePostPage.Serve | src/main/kotlin/net/pterodactylus/sone/web/pages/DeletePostPage.kt:18-37 | Through the template guards: a guarded request deletes nothing, and a deletion always answers with a redirect to the return page |
| DeletePostPage.ForgedPostDeletesNothing | src/main/kotlin/net/pterodactylus/sone/web/pages/DeletePostPage.kt:19-27 | A POST without the form password is redirected and deletes nothing, even with confirmDelete |
| DeletePostPage.ConfirmedDeleteRedirectsToReturnPage | src/main/kotlin/net/pterodactylus/sone/web/pages/DeletePostPage.kt:19-27 | A confirmed POST for a local post deletes exactly that post and redirects to the return page cut to 256 characters |
| MarkAsKnownAjaxPage.Split | src/main/kotlin/net/pterodactylus/sone/web/ajax/MarkAsKnownAjaxPage.kt:26 | The ids are split into at least one piece, none containing a space |
| MarkAsKnownAjaxPage.SplitAtRun | src/main/kotlin/net/pterodactylus/sone/web/ajax/MarkAsKnownAjaxPage.kt:26 | Any run of one or more spaces after an id ends that id and yields no empty piece: the separator is the whole run |
| MarkAsKnownAjaxPage.SplitKeepsNonSpace | src/main/kotlin/net/pterodactylus/sone/web/ajax/MarkAsKnownAjaxPage.kt:26 | Splitting drops exactly the spaces: the pieces put together are the non-space characters in order |
| MarkAsKnownAjaxPage.SplitWithoutSpaces | src/main/kotlin/net/pterodactylus/sone/web/ajax/MarkAsKnownAjaxPage.kt:26 | A single id without spaces splits into itself |
| MarkAsKnownAjaxPage.SplitJoinRoundTrip | src/main/kotlin/net/pterodactylus/sone/web/ajax/MarkAsKnownAjaxPage.kt:26 | Non-empty ids joined by single spaces split back into the same ids |
| MarkAsKnownAjaxPage.Resolve | src/main/kotlin/net/pterodactylus/sone/web/ajax/MarkAsKnownAjaxPage.kt:27 | Only ids that resolve produce things, each a known thing; if all resolve, one per id |
| MarkAsKnownAjaxPage.KindOf | src/main/kotlin/net/pterodactylus/sone/web/ajax/MarkAsKnownAjaxPage.kt:17-21 | The type parameter names the Sone kind exactly when it is "sone", the post kind exactly when "post", the reply kind exactly when "reply" |
| MarkAsKnownAjaxPage.ResolveOne | src/main/kotlin/net/pterodactylus/sone/web/ajax/MarkAsKnownAjaxPage.kt:27 | A single id gives its own thing when it is known, and nothing otherwise |
| MarkAsKnownAjaxPage.ResolveAppend | src/main/kotlin/net/pterodactylus/sone/web/ajax/MarkAsKnownAjaxPage.kt:27 | Resolving concatenated ids resolves each part in turn, so each thing comes from its own id and the id order is kept |
| MarkAsKnownAjaxPage.ResolveCountsResolvedIds | src/main/kotlin/net/pterodactylus/sone/web/ajax/MarkAsKnownAjaxPage.kt:27 | One thing per resolving id occurrence |
| MarkAsKnownAjaxPage.ResolveAllKnown | src/main/kotlin/net/pterodactylus/sone/web/ajax/MarkAsKnownAjaxPage.kt:27 | When every id resolves, the things are the ids' things in order |
| MarkAsKnownAjaxPage.HandleRequest | src/main/kotlin/net/pterodactylus/sone/web/ajax/MarkAsKnownAjaxPage.kt:17-29 | A type other than sone, post or reply is invalid-type and marks nothing; a valid type always succeeds, even without ids; only marks are appended, one per resolving id occurrence: the i-th new mark marks the i-th resolved thing of the chosen kind (a known Sone, a present post or a present reply) |
| MarkAsKnownAjaxPage.MarksEveryKnownSone | src/main/kotlin/net/pterodactylus/sone/web/ajax/MarkAsKnownAjaxPage.kt:17-29 | Known Sone ids sent joined by spaces are all marked known, in order |
| BookmarkAjaxPage.PostId | src/main/kotlin/net/pterodactylus/sone/web/ajax/BookmarkAjaxPage.kt:18 | The post id is present exactly when the parameter is present and not empty |
| BookmarkAjaxPage.Bookmark | src/main/kotlin/net/pterodactylus/sone/web/ajax/BookmarkAjaxPage.kt:17-23 | A missing or empty id is invalid-post-id with no change; any other id succeeds; a known post is bookmarked, an unknown one changes nothing |
| BookmarkAjaxPage.Unbookmark | src/test/kotlin/net/pterodactylus/sone/web/ajax/UnbookmarkAjaxPageTest.kt:18-45 | A missing or empty id is invalid-post-id; an unknown id succeeds without unbookmarking; a known post is unbookmarked |
| BookmarkAjaxPage.UnbookmarkUndoesBookmark | src/test/kotlin/net/pterodactylus/sone/web/ajax/UnbookmarkAjaxPageTest.kt:39-45 | Unbookmarking a freshly bookmarked post restores the store |
| BookmarkAjaxPage.BookmarkTwiceIsBookmarkOnce | src/main/kotlin/net/pterodactylus/sone/web/ajax/BookmarkAjaxPage.kt:20 | Bookmarking is idempotent |
| BookmarkAjaxPage.BookmarkedAfterBookmark | src/main/kotlin/net/pterodactylus/sone/web/ajax/BookmarkAjaxPage.kt:20-21 | A known post is bookmarked after bookmarking and not after unbookmarking |
| FollowSoneAjaxPage.HandleRequest | src/main/kotlin/net/pterodactylus/sone/web/ajax/FollowSoneAjaxPage.kt:15-21 | A missing or unknown Sone is invalid-sone-id with no change; a known one is followed by the current Sone and marked known |
| FollowSoneAjaxPage.SucceedsIffFollowed | src/main/kotlin/net/pterodactylus/sone/web/ajax/FollowSoneAjaxPage.kt:15-21 | Success exactly when the named Sone is known and is afterwards followed and marked known last |
| FollowSoneAjaxPage.FollowTwice | src/main/kotlin/net/pterodactylus/sone/web/ajax/FollowSoneAjaxPage.kt:18-19 | Following twice records one follow but two marks |
| DeleteProfileFieldAjaxPage.FieldIndex | src/main/kotlin/net/pterodactylus/sone/web/ajax/DeleteProfileFieldAjaxPage.kt:16 | The first field with the id, or none when no field has it |
| DeleteProfileFieldAjaxPage.RemoveAt | src/main/kotlin/net/pterodactylus/sone/web/ajax/DeleteProfileFieldAjaxPage.kt:19 | Removes exactly that field and keeps the others in order |
| DeleteProfileFieldAjaxPage.HandleRequest | src/main/kotlin/net/pterodactylus/sone/web/ajax/DeleteProfileFieldAjaxPage.kt:12-25 | A missing or unknown field is invalid-field-id with no change and no touch; otherwise the field is removed, the profile stored back and the configuration touched once |
| DeleteProfileFieldAjaxPage.DeletesOnlyTheAddressedField | src/main/kotlin/net/pterodactylus/sone/web/ajax/DeleteProfileFieldAjaxPage.kt:17-22 | A successful deletion removes one field with the id and keeps every field with another id |
| DeleteProfileFieldAjaxPage.FailsIffNoSuchField | src/main/kotlin/net/pterodactylus/sone/web/ajax/DeleteProfileFieldAjaxPage.kt:15-23 | The deletion fails exactly when the profile has no field with the id |
| DismissNotificationAjaxPage.HandleRequest | src/main/java/net/pterodactylus/sone/web/ajax/DismissNotificationAjaxPage.java:47-58 | An unknown id is invalid-notification-id, checked first; a non-dismissable one is not-dismissable; only then is it dismissed; errors change nothing |
| DismissNotificationAjaxPage.DismissesOnlyDismissable | src/main/java/net/pterodactylus/sone/web/ajax/DismissNotificationAjaxPage.java:50-57 | Failed calls change nothing and a successful call dismisses exactly one dismissable notification |
| DismissNotificationAjaxPage.DismissIsIdempotent | src/main/java/net/pterodactylus/sone/web/ajax/DismissNotificationAjaxPage.java:56-57 | Dismissing twice is dismissing once |
| LikePostCommand.Liker | src/test/kotlin/net/pterodactylus/sone/fcp/LikePostCommandTest.kt:44-65 | The liker exists exactly when the Sone parameter names a known local Sone |
| LikePostCommand.Execute | src/test/kotlin/net/pterodactylus/sone/fcp/LikePostCommandTest.kt:32-76 | A missing or unknown post, or a missing, unknown or remote Sone, is an FCP exception with no change; otherwise the post id is added to the Sone's liked posts, and the reply is Message=PostLiked with LikeCount the decimal count of the likes afterwards |
| LikePostCommand.LikeAddsTheLiker | src/test/kotlin/net/pterodactylus/sone/fcp/LikePostCommandTest.kt:67-76 | A successful like adds exactly the liking Sone to the post's likes |
| LikePostCommand.LikeIsIdempotent | src/test/kotlin/net/pterodactylus/sone/fcp/LikePostCommandTest.kt:67-76 | Liking again changes nothing and gives the same reply |
| LikePostCommand.FirstLikeCountsOneMore | src/test/kotlin/net/pterodactylus/sone/fcp/LikePostCommandTest.kt:67-76 | The first like of a Sone raises the count by one |
| Numbers.ParseInt | src/main/kotlin/net/pterodactylus/sone/web/pages/NewPage.kt:26 | toIntOrNull: a value exactly when the text is an optional sign followed by at least one ASCII digit and nothing else, and the signed value fits in an int; the value is then the signed decimal value of the text |
| Numbers.TrailingTextDoesNotParse | src/main/kotlin/net/pterodactylus/sone/web/pages/NewPage.kt:26 | Text with a non-digit at its end never parses |
| Numbers.DecimalParsesBack | src/main/kotlin/net/pterodactylus/sone/web/pages/NewPage.kt:26 | Every non-negative int written in decimal parses back to itself |
| Numbers.NegativeDecimalParsesBack | src/main/kotlin/net/pterodactylus/sone/web/pages/NewPage.kt:26 | Every negative int written with a minus sign parses back to itself |
| Numbers.OverflowDoesNotParse | src/main/kotlin/net/pterodactylus/sone/web/pages/NewPage.kt:26 | One past the int range does not parse |
| Numbers.PageIndex | src/main/kotlin/net/pterodactylus/sone/web/pages/NewPage.kt:26 | The parsed page parameter, or 0 when missing or not a number |
| Numbers.WrapLong | src/main/java/net/pterodactylus/sone/core/SoneModificationDetector.java:71 | Java long subtraction wraps modulo 2^64 and leaves in-range values alone |
| Numbers.TruncDiv | src/main/java/net/pterodactylus/sone/core/SoneModificationDetector.java:71 | Division that truncates toward zero: the quotient and the remainder both take the sign of the dividend, and the remainder is smaller than the divisor |

## Left out

- Threads, sleeping and executors: the inserter's loop is a sequence of iterations and the lock handler's timer is an event; each handler body is one atomic step.
- The SoneInserter class is not part of this model; its loop is modelled from its tests, in the order stop check, Sone lookup, eligibility, insert.
- Manifest and template rendering, the page maker, style sheets and the nanoTime logging of template pages: output formats of libraries outside the model.
- The metrics registry, event bus, Freenet URIs and insertDirectory: replaced by counters, an event sequence and an abstract insert outcome.
- Pagination (`paginate`/`turnTo`): not part of this model; the listings carry the page size and page index instead.
- JsonPage and LoggedInPage: not part of this model; login and form-password requirements are recorded as constants, and the current Sone of logged-in pages is a parameter.
- SoneInserter.Step: the eligibility of an iteration is an input (the tests mock the detector); `AskDetector` connects it to the detector model.
- BookmarkAjaxPage.PostId: `emptyToNull` is not part of this model and is taken to map only the empty string to null.
- ListNotification.Remove: the list notification class is not part of this model; `remove` is taken to remove every occurrence and keep the other elements in order.
- ListNotification.Add: the list notification class is not part of this model; `add` is taken to append, duplicates included.
- DismissNotificationAjaxPage.DismissIsIdempotent: the model keeps a dismissed notification retrievable by its id; the notification manager is not part of this model and may forget it, in which case a second request would answer invalid-notification-id while the store effect stays the same.
- Web.PartFailsafe: the request class is not part of this model; missing parts read as "" and long parts are cut to their first `limit` characters.
- Numbers.ParseInt: accepts only ASCII digits, where Kotlin also accepts other Unicode digits.
- ViewPostPage.ShortText: counts Dafny characters, where Kotlin counts UTF-16 code units.
- Ordering.LexLessOrEqual: compares characters, where Java's `compareTo` compares UTF-16 code units.
- DeleteProfileFieldAjaxPage.RemoveAt: the profile class is not part of this model; `removeField` is taken to remove the first field with the id.
- LikePostCommand.Execute: the command class is not part of this model; LikeCount is computed from the Sones whose liked posts contain the post after the like, and whether the command touches the configuration is not modelled.
- DismissNotificationAjaxPage.HandleRequest: dismissing is recorded as a set of dismissed ids; what the notification manager does with it is not modelled.
- IdentityLoader, DefaultAlbumBuilder, DebugLoaders, the error and about pages, the notification handler wiring and the config-not-read handler: no decision logic of their own here, or their logic lives in classes that are not part of this model.
