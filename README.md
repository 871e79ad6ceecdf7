# Simple-Portfolio-Template: threaded comments, post listing and paging

This project models the logic of a Next.js blog template with threaded
comments and proves properties of that model. The model covers:

- the comment API handlers: the authenticated `route.ts`, the older
  `route.js` and the pages-router `comments.ts`;
- the reply tree the GET handlers build: two passes over the fetched
  documents, then serialisation;
- the client comment section: vote-count normalisation, newest-first
  ordering, and the request bodies it sends;
- the per-comment vote widget and its optimistic update with rollback;
- the comment editor: Markdown toolbar splicing, and the pending-comment
  flow through the sign-in dialog;
- the sign-in dialog's choice of display name;
- the posts API's page/limit arithmetic and slicing;
- the pagination row, and the home page that reads the page from the
  query string;
- the post-metadata library: the `.md` filter, slug derivation,
  defaults, the newest-first sort and slug lookup.

Conventions:

- The comment collection is a `seq<Doc>` in the order a query without
  `orderBy` returns documents: document-id order. Each handler is a
  function from the store to a response and a new store. The store
  assigns random ids, so the place `at` where a new document lands in
  that order is an input, like the id itself.
- A browser component whose state changes through setters is a class
  with one method per handler. The `localStorage` the components share
  is the `Browser.LocalStorage` class.
- JavaScript built-ins the source relies on are spelled out in
  `JsText`: `trim`, `indexOf`, `endsWith`, `split(' ')[1]`,
  `slice(-n)`, template-literal integers, `parseInt(s, 10)`, and
  `String.prototype.replace` with its `$` substitution patterns.
- `Sorting` is the stable `Array.prototype.sort` with a
  newest-first comparator.

Every network, identity-provider, store and file-system call is an input:

- whether the call succeeded;
- the id the store assigns;
- the uid a token verifies to;
- the directory listing;
- the creation time, as an integer.

## Model

| member | source | states |
|---|---|---|
| CommentStore.Query | src/app/api/comments/route.ts:52-53 | the documents whose `postSlug` equals the slug, in store order, each with that slug, no more than the store holds; distinct ids stay distinct |
| CommentStore.QueryMembers | src/app/api/comments/route.ts:52 | a document is in the query result if and only if it is stored and has that slug |
| CommentStore.Insert | src/app/api/comments/route.ts:34 | the store after `addDoc`: the new document at its place, every other document kept in order, one more document in all; ids stay distinct when the new id is fresh |
| CommentStore.QueryAppend | src/app/api/comments/route.ts:52-53 | querying two stretches of the store one after the other is querying each and joining the results |
| CommentStore.QueryInsert | src/app/api/comments/route.ts:34-53 | after an insertion the query holds the new document (when it has the slug) between the matches before and after its place, which keep their order |
| CommentStore.QuerySkeleton | src/app/api/comments/route.js:47-48 | two stores that differ only in stored `replies` arrays give queries that differ only there |
| CommentStore.Lookup | src/app/api/comments/route.ts:67 | `commentsMap.get(id)` for a fetched id is a fetched document with that id |
| CommentStore.LookupAt | src/app/api/comments/route.ts:59-62 | with distinct ids, looking up the id of the i-th document gives that document |
| CommentStore.Ids | src/app/api/comments/route.ts:60-61 | the keys the first pass puts in the map: the i-th is the i-th document's id |
| CommentTree.TopIds | src/app/api/comments/route.ts:71-73 | an id is in the top-level list if and only if a fetched document with that id has a falsy `parentId`; query order |
| CommentTree.ChildIds | src/app/api/comments/route.ts:66-70 | an id is in the list of `x` if and only if a fetched document with that id has `parentId` naming `x`; query order |
| CommentTree.ChildMap | src/app/api/comments/route.ts:55-74 | the `replies` list every map entry holds after the two passes: one entry per fetched id, holding the ids of its children |
| CommentTree.EmptyLists | src/app/api/comments/route.ts:59-62 | the first pass: one entry per fetched id, every `replies` list empty, so stored lists are overwritten |
| CommentTree.LinkStep | src/app/api/comments/route.ts:65-74 | one more document pushed by the second pass keeps every list equal to the children among the documents seen so far; the keys do not change |
| CommentTree.SnocIds | src/app/api/comments/route.ts:66-73 | a further document adds its id at the end of its parent's list or of the top-level list, and nowhere else |
| CommentTree.IdsAppend | src/app/api/comments/route.ts:65-74 | the top-level list and every child list of two stretches joined are those of each stretch, joined |
| CommentTree.IdsInsert | src/app/api/comments/route.ts:65-74 | a document put between two stretches adds its id only to its parent's list or to the top-level list, between the entries of the two stretches |
| CommentTree.LinkComments | src/app/api/comments/route.ts:55-74 | the two loops compute exactly the child map and the top-level list |
| CommentTree.Unfold | src/app/api/comments/route.ts:60-69 | the shared node of a comment carries its id and fields, and its replies are the nodes of its list, in order |
| CommentTree.UnfoldAll | src/app/api/comments/route.ts:69 | the nodes of a `replies` list, one per id, in order |
| CommentTree.UnfoldForest | src/app/api/comments/route.ts:72 | the nodes of the top-level list, one per id, in order |
| CommentTree.BuildTree | src/app/api/comments/route.ts:55-74 | the GET handlers' tree equals the reference definition `BuildForest` of the fetched documents |
| CommentTree.SerializeComments | src/app/api/comments/route.ts:77-84 | `serializeComments` gives back the tree unchanged: same comments, same fields, same replies at every depth |
| CommentTree.SerializeComment | src/app/api/comments/route.ts:78-81 | one serialised comment is the comment itself |
| CommentTree.TopsAreTops | src/app/api/comments/route.ts:71-73 | every top-level id is a fetched comment with no truthy `parentId` |
| CommentTree.ChildrenAreChildren | src/app/api/comments/route.ts:66-70 | every id in the list of `x` is a fetched comment whose `parentId` names `x` |
| CommentTree.ChainBound | src/app/api/comments/route.ts:55-74 | a list of fetched ids without repeats, such as an ancestor chain, is no longer than the fetched list |
| CommentTree.ChildNotOnChain | src/app/api/comments/route.ts:66-70 | a child of a comment is never among that comment's ancestors, so the shared nodes form no cycle |
| CommentTree.ChainExtends | src/app/api/comments/route.ts:66-70 | a child in front of its parent's ancestor chain is again a chain, and a longer one |
| CommentTree.ChainUnique | src/app/api/comments/route.ts:66-70 | every comment has at most one ancestor chain |
| CommentTree.UnfoldChains | src/app/api/comments/route.ts:65-74 | every comment below a node has an ancestor chain through that node |
| CommentTree.UnfoldDistinct | src/app/api/comments/route.ts:69 | no comment occurs twice below one node |
| CommentTree.SiblingsDisjoint | src/app/api/comments/route.ts:69 | the subtrees of two different replies share no comment |
| CommentTree.ChildIdsDistinct | src/app/api/comments/route.ts:69 | a `replies` list holds each id at most once |
| CommentTree.TopIdsDistinct | src/app/api/comments/route.ts:72 | the top-level list holds each id at most once |
| CommentTree.ForestDistinct | src/app/api/comments/route.ts:65-74 | the nodes of distinct top-level comments hold every comment at most once across the whole forest |
| CommentTree.ChainReaches | src/app/api/comments/route.ts:66-70 | a comment whose ancestor chain runs through a node is below that node |
| CommentTree.UnfoldIsFaithful | src/app/api/comments/route.ts:60-70 | every node below a comment has its document's fields, and its replies are its children in query order, at any depth |
| CommentTree.ForestFaithful | src/app/api/comments/route.ts:65-74 | every top-level node is faithful to the fetched documents |
| CommentTree.ForestShape | src/app/api/comments/route.ts:59-74 | the top level is exactly the comments with falsy `parentId`, in query order, and each node below lists its fetched children in query order at any depth |
| CommentTree.ChainAppears | src/app/api/comments/route.ts:65-74 | a comment whose ancestor chain ends at a top-level comment appears in the tree |
| CommentTree.AppearsIffChain | src/app/api/comments/route.ts:65-74 | a comment appears in the tree if and only if its ancestor chain ends at a top-level comment |
| CommentTree.OrphanDropped | src/app/api/comments/route.ts:66-70 | a reply whose `parentId` names no fetched comment lies on no ancestor chain and does not appear in the tree |
| CommentTree.ReplyOfDroppedDropped | src/app/api/comments/route.ts:66-70 | a reply of a comment that does not appear does not appear either, so everything below a dropped comment is dropped with it |
| CommentTree.NoDuplicates | src/app/api/comments/route.ts:55-84 | no comment appears twice in the returned tree |
| CommentTree.ForestIgnoresStoredReplies | src/app/api/comments/route.js:55 | the tree depends only on the ids and fields of the fetched documents, never on their stored `replies` arrays |
| CommentTree.SkeletonChildMap | src/app/api/comments/route.js:55-69 | documents that agree on ids and fields give the same child map |
| CommentTree.SkeletonUnfoldForest | src/app/api/comments/route.js:55-69 | documents that agree on ids and fields unfold to the same forest |
| CommentsRoute.Post | src/app/api/comments/route.ts:4-41 | 401 if and only if the header gives no bearer token; 403 if and only if there is a token and verification, the body parse or the append throws; 400 if and only if a field is missing; 200 if and only if all pass. Only a 200 stores anything, exactly one record at its place in id order, the other documents kept in order: the fields as given, the verified uid, `parentId` or null, zero votes, empty `replies` and `mentionedUsers`. With a fresh id, ids stay distinct |
| CommentsRoute.Get | src/app/api/comments/route.ts:43-89 | 400 without a truthy `postSlug`, 500 when the query throws, otherwise 200 with the tree of that post's documents |
| CommentsRoute.PostThenGetTopLevel | src/app/api/comments/route.ts:21-74 | after a successful top-level POST the top level of its post's tree is the old one with the new comment added at its place in id order, behind exactly the top-level comments stored before that place; the others keep their order |
| CommentsRoute.PostThenGetReply | src/app/api/comments/route.ts:21-70 | after a successful reply POST the parent's child list is the old one with the new id added at its place in id order; the other replies keep their order |
| CommentsRouteJs.ArrayUnion | src/app/api/comments/route.js:27 | `arrayUnion`: the result holds the old ids and the new one, keeps the old ones first in order, grows by at most one, and stays duplicate-free |
| CommentsRouteJs.ArrayUnionIdempotent | src/app/api/comments/route.js:27 | adding the same id twice is adding it once |
| CommentsRouteJs.AddReplyId | src/app/api/comments/route.js:25-28 | the parent update changes only the parent's `replies` array, to the union with the new id; ids and fields are untouched |
| CommentsRouteJs.Record | src/app/api/comments/route.js:12-34 | zero votes; a reply carries `parentId` and no `replies`; a top-level comment carries `replies: []` and no `parentId` |
| CommentsRouteJs.Post | src/app/api/comments/route.js:4-40 | 400 if and only if a field is missing; nothing is written unless the append succeeds; a reply is appended before the parent update, and when that update fails (or the parent is missing) the answer is 500 with the reply still stored; a 200 answers with the new id |
| CommentsRouteJs.QueryParam | src/app/api/comments/route.js:45-48 | a document is queried if and only if it is stored and its slug equals the parameter; an absent `postSlug` matches none; ids stay distinct |
| CommentsRouteJs.Get | src/app/api/comments/route.js:42-76 | 500 when the query throws, otherwise 200 with the tree of the queried documents, with no check of the parameter |
| CommentsRouteJs.ReplyListedOnce | src/app/api/comments/route.js:26-28 | after a successful reply the parent's stored array (shifted by one if the reply landed before it) lists the new id, keeps its old entries first, and stays duplicate-free |
| CommentsRouteJs.UnionInvisibleToGet | src/app/api/comments/route.js:26-69 | the parent update does not change the tree any GET returns |
| PostsCommentsApi.Handle | src/pages/api/posts/comments.ts:4-36 | 405 for any method but POST, 400 for a missing field, 500 when the append throws, all with the store unchanged; 200 if and only if exactly one record is appended, echoing its id, with `parentId` or null, `mentionedUsers` or [], zero votes |
| PostsCommentsApi.HandledCommentIsQueried | src/pages/api/posts/comments.ts:26 | a 200 puts the new comment in its post's query behind exactly the matches stored before its place; removing it gives back the old query |
| CommentsView.EnsureNumericVotes | src/components/Comments.tsx:37-42 | a missing count becomes 0 and a present one is kept; every other field, the id and the number of replies are kept |
| CommentsView.EnsureAll | src/components/Comments.tsx:41 | the map over a list: same length, each element normalised |
| CommentsView.EnsureGivesNumeric | src/components/Comments.tsx:37-42 | after normalising, every node at every depth has both counts |
| CommentsView.EnsureIdentityOnNumeric | src/components/Comments.tsx:37-42 | a tree whose counts are all present comes back unchanged |
| CommentsView.EnsureIdempotent | src/components/Comments.tsx:37-42 | normalising twice is normalising once |
| CommentsView.EnsureKeepsShape | src/components/Comments.tsx:41 | normalising keeps the same comments in the same order at every depth |
| CommentsView.EnsureAllKeepsShape | src/components/Comments.tsx:44 | the same for a list of trees |
| CommentsView.Loaded | src/components/Comments.tsx:44-50 | the shown list is a permutation of the normalised fetched list, sorted by `createdAt` non-increasing; only the top level is reordered |
| CommentsView.LoadedKeepsSortedOrder | src/components/Comments.tsx:45-50 | a list that already arrives newest first keeps its order, ties included |
| CommentsView.Refresh | src/components/Comments.tsx:30-55 | a failed fetch keeps the shown list; a successful one shows the loaded list |
| CommentsView.AfterRequest | src/components/Comments.tsx:61-140 | a request whose response is not ok is swallowed and the list kept; otherwise the list is either kept or replaced by the loaded refetch |
| CommentsView.VoteInSection | src/components/Comments.tsx:111-140 | a vote through the section's own `onVote` always keeps the optimistic update, since that handler swallows every error; the shown list is kept or reloaded |
| CommentsView.NewCommentBody | src/components/Comments.tsx:70-75 | the body of a new comment: the post, the text and the display name, no parent; it passes the server's field check if and only if none of the three is empty |
| CommentsView.ReplyBody | src/components/Comments.tsx:97-102 | the body of a reply: the same fields and the parent's id, which is truthy if and only if it is non-empty; it passes the field check if and only if post, text and name are non-empty |
| CommentsView.NewCommentStoredTopLevel | src/components/Comments.tsx:61-76 | the body `handleNewComment` sends, accepted by the server, is stored at its place as a top-level comment of the same post under the token's uid, the rest of the store unchanged |
| CommentsView.ReplyStoredUnderParent | src/components/Comments.tsx:84-103 | the body `handleReply` sends, accepted by the server, is stored at its place as a child of its parent in the same post, the rest of the store unchanged |
| CommentItemView.Optimistic | src/components/CommentItem.tsx:67-89 | a repeated vote is withdrawn, any other vote is cast (moved from the other side); the counts stay the server's plus the reader's vote; their sum moves by at most one |
| CommentItemView.Rollback | src/components/CommentItem.tsx:97-109 | the corrected rollback restores the previous vote |
| CommentItemView.RollbackRestores | src/components/CommentItem.tsx:62-111 | after a failed vote the counts and the vote are exactly as before, for every transition |
| CommentItemView.RollbackAsWritten | src/components/CommentItem.tsx:97-109 | the rollback as written restores the previous vote |
| CommentItemView.RollbackAsWrittenRestoresCast | src/components/CommentItem.tsx:98-108 | as written, a failed cast or switch is rolled back exactly |
| CommentItemView.RollbackAsWrittenAfterWithdrawal | src/components/CommentItem.tsx:67-105 | as written, a failed withdrawal leaves its counter two below where it started |
| CommentItemView.WithdrawalRollbackExample | src/components/CommentItem.tsx:67-99 | an upvoted comment showing 5 whose withdrawal fails shows 3 and still counts the reader's upvote |
| CommentItemView.VoteWidget.ApplyOptimistic | src/components/CommentItem.tsx:62-89 | the widget takes the optimistic state for the vote |
| CommentItemView.VoteWidget.HandleVote | src/components/CommentItem.tsx:62-111 | as written: success leaves the optimistic state; failure applies the rollback as written to it, which restores the old state exactly when the vote was a cast or switch; the counts remain the server's plus the reader's vote after a success or a failed cast |
| CommentItemView.VoteWidget.HandleVoteCorrected | src/components/CommentItem.tsx:62-111 | with the rollback undoing whatever the optimistic step did: success leaves the optimistic state, failure leaves the state as before, and the counts always remain the server's plus the reader's vote |
| CommentItemView.VoteWidget.constructor | src/components/CommentItem.tsx:48-52 | the widget starts at the rendered counts with no vote |
| CommentItemView.CountTotalReplies | src/components/CommentItem.tsx:118-124 | the count is the number of comments below, at any depth; 0 for a leaf |
| CommentItemView.TimeAgo | src/components/CommentItem.tsx:126-147 | the first unit whose count is under its limit: seconds under 60, minutes under 60, hours under 24, days under 30, 30-day months under 12, otherwise years; the amount is the age in whole units of that unit (a month 30 days, a year 365) |
| CommentItemView.FormatTimeAgo | src/components/CommentItem.tsx:136-146 | the text starts with the amount, a space and the name of the unit `TimeAgo` picks; it ends in " ago", ends in "s ago" if and only if the amount is not 1, and `parseInt` reads the amount back from it |
| CommentItemView.AgoTextPlural | src/components/CommentItem.tsx:136-146 | the text of an amount and a unit is plural if and only if the amount is not 1 |
| CommentItemView.AgoTextReadsBack | src/components/CommentItem.tsx:136-146 | `parseInt` reads the amount back from the text of an amount and a unit |
| CommentItemView.ThreeMonths | src/components/CommentItem.tsx:126-146 | ages of 90 to 119 days show as "3 months ago" |
| CommentItemView.ZeroYearsGap | src/components/CommentItem.tsx:132-146 | ages of 360 to 364 days show as "0 years ago" |
| CommentItemView.HandleReply | src/components/CommentItem.tsx:54-60 | blank text calls nothing and keeps the open form; otherwise the trimmed, non-empty text is sent with the comment's id and the form closes |
| CommentItemView.EffectiveDepth | src/components/CommentItem.tsx:151 | the smaller of depth and the maximum |
| CommentItemView.ShowDeleteMenu | src/components/CommentItem.tsx:190 | the delete menu shows if and only if a display name is stored and equals the comment's author; never when none is stored |
| CommentFormView.SelectedOr | src/components/CommentForm.tsx:72 | the selection, or the placeholder when it is empty |
| CommentFormView.InsertMarkdownTextAsWritten | src/components/CommentForm.tsx:67-82 | as written, the text before and after the selection is kept, whatever the selection holds |
| CommentFormView.InsertMarkdownText | src/components/CommentForm.tsx:67-82 | the text before `start` and after `end` is kept; when the syntax holds "text", that word is replaced by the selection (or the placeholder), so the length changes by the syntax's length minus 4 plus the insertion's minus the selection's, and the new selection starts at `start + indexOf("text")` and covers exactly the inserted text; otherwise the syntax replaces the selection |
| CommentFormView.AsWrittenAgreesWithoutDollar | src/components/CommentForm.tsx:73-76 | without a `$` in the inserted text, the code as written and the literal insertion agree |
| CommentFormView.DollarInSelectionIsExpanded | src/components/CommentForm.tsx:73-82 | bolding the selection "a$&b" as written gives "**atextb**", and the new selection no longer covers the inserted text |
| CommentFormView.AsWrittenBoldEdit | src/components/CommentForm.tsx:73-82 | the edit as written for that input, in full |
| CommentFormView.LiteralInsertKeepsDollar | src/components/CommentForm.tsx:73-76 | the literal insertion gives "**a$&b**" for that input |
| CommentFormView.InitialContent | src/components/CommentForm.tsx:33-50 | a reply starts with "@", the parent's author and a space; otherwise a non-empty parked comment is restored, else the editor is empty |
| CommentFormView.CommentForm.constructor | src/components/CommentForm.tsx:26-50 | the editor starts with the prefilled content, out of preview, dialog closed, nothing posted |
| CommentFormView.CommentForm.Input | src/components/CommentForm.tsx:103-106 | the content becomes the typed value; nothing else changes |
| CommentFormView.CommentForm.InsertMarkdown | src/components/CommentForm.tsx:65-85 | in preview nothing happens; otherwise the content and selection become those of the edit as written; when the inserted text holds no `$` they are those of the literal insertion |
| CommentFormView.CommentForm.HandleSubmit | src/components/CommentForm.tsx:87-101 | blank content changes nothing; with a stored display name the untrimmed content is posted under it, the editor cleared and the parked comment removed; without one the content is parked, nothing posted and the dialog opened |
| CommentFormView.CommentForm.HandleSignIn | src/components/CommentForm.tsx:108-117 | a parked comment is posted once under the new name and removed; content cleared, preview off and dialog closed in every case |
| CommentFormView.CommentForm.SetSignInModalOpen | src/components/CommentForm.tsx:228 | the dialog's open flag is set; nothing else changes |
| CommentFormView.CommentForm.TogglePreview | src/components/CommentForm.tsx:124-133 | preview mode flips; nothing else changes |
| CommentFormView.CommentForm.HandleCancel | src/components/CommentForm.tsx:135-141 | content cleared, preview off, `onCancel` called when given; a parked comment stays parked |
| CommentFormView.SubmitSignedOut | src/components/CommentForm.tsx:87-100 | submitting from a new editor without a stored name posts nothing and parks the text |
| CommentFormView.PendingCommentFlow | src/components/CommentForm.tsx:87-117 | submit while signed out, then anonymous sign-in, posts the comment exactly once under the stored name, and a second sign-in posts nothing more |
| SignInFormView.AnonymousDisplayName | src/components/SignInForm.tsx:40-41 | the trimmed typed name if it is not blank, otherwise "Anonymous User " and the last four characters of the uid; never empty |
| SignInFormView.AnonymousNameEndsWithUid | src/components/SignInForm.tsx:41 | without a typed name the display name is 15 characters plus up to four, and ends with the end of the uid |
| SignInFormView.GetUsername | src/components/SignInForm.tsx:100-111 | null for an unknown provider; for a known one the profile name, else the e-mail, else null |
| SignInFormView.ProviderDisplayName | src/components/SignInForm.tsx:75 | a typed name that is not blank wins over the profile name |
| SignInFormView.SignInForm.constructor | src/components/SignInForm.tsx:33-34 | empty name and no error |
| SignInFormView.SignInForm.TypeUsername | src/components/SignInForm.tsx:33 | the name field takes the typed value |
| SignInFormView.SignInForm.HandleAnonymousSignIn | src/components/SignInForm.tsx:36-49 | on success the display name is stored and reported with provider "anonymous"; on failure an error is set and storage is untouched |
| SignInFormView.SignInForm.HandleProviderSignIn | src/components/SignInForm.tsx:51-98 | an unknown provider does nothing; a failed sign-in or a missing profile name sets its error and stores nothing; otherwise the chosen name is stored and reported |
| Browser.LocalStorage.GetItem | src/components/CommentForm.tsx:91 | the stored string, or null when there is none |
| Browser.LocalStorage.SetItem | src/components/CommentForm.tsx:98 | stores one key; the others are unchanged |
| Browser.LocalStorage.RemoveItem | src/components/CommentForm.tsx:96 | removes one key; the others are unchanged |
| PostsApi.ParamOr | src/app/api/posts/route.ts:9-10 | an absent or empty parameter takes the fallback |
| PostsApi.CeilDiv | src/app/api/posts/route.ts:14 | `Math.ceil(n / limit)`: the least multiple count covering `n` for a positive limit, null (NaN or infinite) for 0 or NaN, and for a negative limit the ceiling of the negative quotient |
| PostsApi.SlicePosition | src/app/api/posts/route.ts:18 | `slice` clamps a position into the list, counts a negative one from the end and reads NaN as 0 |
| PostsApi.Slice | src/app/api/posts/route.ts:18 | `slice(start, end)` is the infix between the two positions, empty when they cross |
| PostsApi.Get | src/app/api/posts/route.ts:6-32 | a listing error answers 500 with its message; otherwise the page parsed from the query, the page count for the limit, and the post count |
| PostsApi.PageOf | src/app/api/posts/route.ts:16-18 | a page holds at most `limit` posts |
| PostsApi.GetReturnsPage | src/app/api/posts/route.ts:9-25 | for page p and limit from 1 up, the answer is that page of the list, echoes p, and is empty past the last page |
| PostsApi.PastLastPageEmpty | src/app/api/posts/route.ts:14-18 | a page past `totalPages` is empty |
| PostsApi.SliceOfPage | src/app/api/posts/route.ts:16-18 | the slice the handler takes is the page of the reference definition |
| PostsApi.DefaultsToFirstPage | src/app/api/posts/route.ts:4-18 | without parameters the answer is page 1, the first three posts, and the page count for three a page |
| PostsApi.FirstPagesArePrefix | src/app/api/posts/route.ts:16-18 | pages 1 to k, one after another, are the first k times limit posts |
| PostsApi.PagesCoverAll | src/app/api/posts/route.ts:14-18 | reading pages 1 to `totalPages` gives back the whole list, each post once, in order |
| PostsLib.StripMd | src/lib/posts.server.ts:32 | a trailing ".md" is removed; any other name is kept |
| PostsLib.FileName | src/lib/posts.server.ts:50 | the file read for a slug is a Markdown name three characters longer |
| PostsLib.SlugRoundTrip | src/lib/posts.server.ts:32-50 | the slug of the file read for a slug is that slug |
| PostsLib.FileNameRoundTrip | src/lib/posts.ts:22-39 | every Markdown file is the file of its slug |
| PostsLib.MarkdownFiles | src/lib/posts.server.ts:29-30 | only ".md" names are kept, each as often as it is listed |
| PostsLib.Metadata | src/lib/posts.server.ts:31-43 | slug without ".md"; title or the slug; date or "Unknown date"; tags or []; excerpt or "" |
| PostsLib.Entries | src/lib/posts.ts:20-33 | one entry per file, in order |
| PostsLib.GetPostMetadata | src/lib/posts.server.ts:26-46 | one entry per Markdown file, a permutation of the entries, newest first when every date parses |
| PostsLib.EntriesAreMarkdownFiles | src/lib/posts.ts:17-36 | an entry is listed if and only if it is the metadata of a Markdown file of the directory |
| PostsLib.ListedEntryHasFile | src/lib/posts.server.ts:29-45 | every listed entry comes from a Markdown file |
| PostsLib.MarkdownFileListed | src/lib/posts.server.ts:29-45 | every Markdown file gives a listed entry |
| PostsLib.FindFile | src/lib/posts.server.ts:51 | the file of that name, or none when no file has it |
| PostsLib.GetPostBySlug | src/lib/posts.server.ts:49-70 | a post exactly when the file `slug + ".md"` exists; it carries the slug and the front matter and content of such a file |
| PostsLib.ListedSlugsResolve | src/lib/posts.ts:19-39 | the slug of every listed post leads back to its own file's front matter and content |
| Sorting.InsertDesc | src/lib/posts.server.ts:45 | inserting keeps the elements as a multiset, and keeps a sorted list sorted |
| Sorting.SortDesc | src/components/Comments.tsx:45-50 | the sort gives a permutation, sorted by key non-increasing |
| Sorting.InsertAfterSmallerKey | src/components/Comments.tsx:45-50 | an element no newer than the last goes at the end, so equal keys keep their order |
| Sorting.SortDescOfSorted | src/lib/posts.ts:35 | a list already newest first is left as it is |
| PaginationView.WindowFrom | src/components/Pagination.tsx:60-66 | the pages from `lo` up to `totalPages` within one of the current page, in ascending order |
| PaginationView.WindowIsNeighbours | src/components/Pagination.tsx:60-66 | filtering every page is the same as testing the three neighbours |
| PaginationView.WindowLinks | src/components/Pagination.tsx:67-81 | one link per window page, active exactly for the current page |
| PaginationView.WindowInRange | src/components/Pagination.tsx:60-81 | for a page in range the window is the page before (if any), the current page (active), and the page after (if any) |
| PaginationView.Items | src/components/Pagination.tsx:27-114 | "Previous" comes first if and only if the page is above 1 and leads to the page before; "Next" comes last if and only if the page is below `totalPages` and leads to the page after; neither appears anywhere else |
| PaginationView.MiddleHasOnlyLinks | src/components/Pagination.tsx:42-99 | between the arrows there are only page links and ellipses |
| PaginationView.LinksOfItems | src/components/Pagination.tsx:42-99 | the linked pages are 1 (when the page is above 2), the window, and `totalPages` (when the page is below it by more than 1); the current page is the one active link |
| PaginationView.RowPagesOrdered | src/components/Pagination.tsx:42-99 | those pages run strictly upwards from 1 to `totalPages` |
| PaginationView.LinksAreOrdered | src/components/Pagination.tsx:42-99 | for a page in range the links are strictly increasing (so duplicate-free), start at 1, end at `totalPages`, stay in range, and exactly the current page is active |
| PaginationView.EllipsisMarksGap | src/components/Pagination.tsx:42-99 | an ellipsis sits between two links whose pages are not neighbours, and two adjacent links lead to neighbouring pages |
| PaginationView.RunGapsMarked | src/components/Pagination.tsx:42-99 | a run of consecutive links with the first-page and last-page parts around it marks every gap |
| HomePage.NumberOf | src/app/page.tsx:43 | `Number(s)` on integer text: whitespace-only text is 0; any other number read is the decimal value of the trimmed text; NaN comes only from trimmed text that is not a sign followed by digits |
| HomePage.PageParam | src/app/page.tsx:43 | never 0: an absent parameter, 0 and NaN give 1, any other number is taken as it is |
| HomePage.NumberOfIntToString | src/app/page.tsx:43-64 | `Number` reads back the decimal text of every integer |
| HomePage.PageParamRoundTrip | src/app/page.tsx:43-64 | the page written into `?page=` is read back as the same page, for every page but 0 |
| HomePage.PageUrl | src/app/page.tsx:64 | the address is "/?page=" followed by the page's decimal text |
| HomePage.FetchedPage | src/app/page.tsx:30-53 | the request `fetchPosts` sends for page p gets back that page of the list, at most two posts, none past the last page, and the page count for two a page |
| HomePage.Row | src/app/page.tsx:172-248 | with an undefined page count every comparison with it fails, so only "Previous" and the first-page part remain |
| HomePage.RowLinksLand | src/app/page.tsx:172-248 | every link and arrow of the row leads to a page from 1 to `totalPages`, and the address it pushes reads back as that page |
| HomePage.Home.constructor | src/app/page.tsx:35-40 | page 1 of 1, no posts, loading, sidebar closed |
| HomePage.Home.OnSearchParams | src/app/page.tsx:42-46 | the current page becomes the page parameter and that page is requested |
| HomePage.Home.FetchPosts | src/app/page.tsx:48-61 | the request is logged; a page answer sets posts and page count; an error body leaves both undefined; a thrown request keeps both; loading ends |
| HomePage.Home.HandlePageChange | src/app/page.tsx:63-65 | pushes `/?page=<page>`; nothing else changes |
| HomePage.Home.ToggleSidebar | src/app/page.tsx:67-69 | the sidebar flag flips; nothing else changes |
| HomePage.FollowLink | src/app/page.tsx:42-65 | following a page link shows that page and requests it |
| HomePage.ToggleTwice | src/app/page.tsx:67-69 | two toggles give back the sidebar state |
| JsText.Trim | src/components/SignInForm.tsx:41 | `trim()`: the result is empty if and only if the text is all whitespace; otherwise it has no whitespace at either end and sits between whitespace-only ends |
| JsText.IndexOf | src/components/CommentForm.tsx:80 | `indexOf`: -1 if and only if there is no occurrence, otherwise the first one |
| JsText.ReplaceFirstLiteral | src/components/CommentForm.tsx:73-76 | only the first occurrence is replaced |
| JsText.Substitution | src/components/CommentForm.tsx:73-76 | a replacement without `$` is inserted as it is |
| JsText.ReplaceFirstJs | src/components/CommentForm.tsx:73-76 | `replace` with a string replacement agrees with the literal replacement when it has no `$` |
| JsText.SecondSpaceField | src/app/api/comments/route.ts:6 | `split(' ')[1]` is undefined if and only if there is no space, and never holds a space |
| JsText.SecondFieldOfPair | src/components/Comments.tsx:67 | the header "Bearer <token>" gives back the token |
| JsText.LastChars | src/components/SignInForm.tsx:41 | `slice(-4)`: the last four characters, or all of a shorter text |
| JsText.IntToString | src/app/page.tsx:64 | a template literal writes an integer as an optional minus and digits |
| JsText.ParseInt10 | src/app/api/posts/route.ts:9-10 | `parseInt(s, 10)` is NaN if and only if no digit follows the whitespace and sign |
| JsText.ParseIntOfIntToString | src/app/api/posts/route.ts:10 | `parseInt` reads back the decimal text of any integer, whatever non-digit follows |

## Left out

- Firebase: token verification, `addDoc`, `updateDoc`, queries and the sign-in popups are inputs (success flags, assigned ids, uids, profiles). `firebaseConfig.js` is not part of this model.
- Network and files: `fetch`, `fs.readdirSync`/`readFileSync` and `gray-matter` are inputs (responses, the listing, parsed front matter).
- Markdown rendering (`ReactMarkdown`, `remark`) and every presentation-only component: sidebar, theme toggle, badges, skeletons, layout, Tailwind config, toolbar buttons.
- Dates: `new Date(...)` and `Date.now` are not modelled. `createdAt` is an integer timestamp, and `formatTimeAgo` takes the age in milliseconds.
- The `/api/comments/[commentId]` vote, delete and fetch routes are not part of this model.
- Asynchrony: each handler runs as one step. React state batching, effects firing twice, the `setTimeout` selection restore, the click-outside listener and textarea resizing are left out.
- CommentStore: ids are assumed distinct, as the store assigns them. Lemmas about a POST take a fresh id as a precondition.
- CommentStore.Insert: the place of a new document in id order is an input `at`; ordering by the random ids themselves is not modelled.
- CommentsRouteJs.Post: a parent id that names no document is modelled as a failed update (500, reply kept), which is what the store does with `updateDoc` on a missing document.
- CommentsView.Loaded: the comparator's `new Date` is replaced by the integer `createdAt`; an unparsable date (NaN comparator result) is not modelled.
- PostsLib.GetPostMetadata: when some date does not parse, the comparator returns NaN and the engine's order is unspecified. The model then keeps the listing order, and sortedness is claimed only when every date parses.
- PostsLib.Metadata: a falsy `tags` is taken as absent only when it is missing; a non-array `tags` value is not modelled.
- HomePage.NumberOf: only integer text is read as a number. Fractions, exponents, hexadecimal, "Infinity" and other numeric forms are NaN here.
- HomePage.PageParam: a negative page is kept as `Number` gives it. The resulting request, which `slice` answers from the end of the list, is only described by `PostsApi.Get` and not by a lemma of its own.
- HomePage.Home.FetchPosts: an error body renders as undefined posts (None). How the page renders undefined posts is not modelled.
- Orphaned replies: the repository's own description says a reply whose parent is missing is shown at the top level, but both GET handlers drop it. The model follows the code (`CommentTree.OrphanDropped`, `CommentTree.ReplyOfDroppedDropped`).
- Delete permission: the description ties it to the author's uid, but the client shows the delete menu by display name (CommentItem.tsx line 190). Only the display-name test is modelled, as `CommentItemView.ShowDeleteMenu`; the delete route itself is not part of this model.
- JavaScript numbers are unbounded integers here; precision loss above 2^53 is not modelled.
- Comments.tsx `handleDelete` and the vote request's URL and headers: only the outcome (swallowed error or refetch) is modelled, in `CommentsView.AfterRequest`.

## Findings

| source | as written | input that shows it | evidently intended | confidence | as-written member | corrected member |
|---|---|---|---|---|---|---|
| src/components/CommentItem.tsx:98-108 | the rollback after a failed vote always undoes a cast, even when the optimistic step withdrew the vote | an upvoted comment showing 5 whose withdrawal fails ends at 3 with the upvote still recorded | the rollback undoes whatever the optimistic step did, restoring 5 | high for the handler, not executed; latent in this app, because the only `onVote` passed (Comments.tsx:175, forwarded at CommentItem.tsx:296) catches every error and never rejects (`CommentsView.VoteInSection`), so it shows only with an `onVote` that rejects | CommentItemView.RollbackAsWrittenAfterWithdrawal | CommentItemView.VoteWidget.HandleVoteCorrected |
| src/components/CommentForm.tsx:73-76 | the selection is passed to `String.prototype.replace` as a string, so `$&`, `$$`, `` $` `` and `$'` in it are expanded | bolding the selected text "a$&b" gives "**atextb**" | the selection is inserted literally, giving "**a$&b**" | high, not executed | CommentFormView.DollarInSelectionIsExpanded | CommentFormView.LiteralInsertKeepsDollar |
