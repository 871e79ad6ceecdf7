/** `src/components/CommentItem.tsx`: one rendered comment. It holds a
    local copy of the vote counts that it updates before the server
    answers, counts the replies below it, formats its age and decides
    whether to offer the delete menu. */
module CommentItemView {
  import opened Wrappers
  import opened JsText
  import opened CommentTree

  // ---------------------------------------------------------------------
  // Votes.

  /** `userVote`: null, "upvote" or "downvote". */
  datatype Vote = NoVote | Upvote | Downvote

  /** The `voteType` argument of `handleVote`. */
  datatype VoteType = UpvoteAction | DownvoteAction

  function VoteOf(k: VoteType): Vote {
    if k == UpvoteAction then Upvote else Downvote
  }

  datatype VoteState = VoteState(up: int, down: int, userVote: Vote)

  /** The counts shown are the server's plus the reader's own vote. */
  predicate Consistent(s: VoteState, initialUp: int, initialDown: int) {
    && s.up == initialUp + (if s.userVote == Upvote then 1 else 0)
    && s.down == initialDown + (if s.userVote == Downvote then 1 else 0)
  }

  /** The optimistic update: voting the same way again withdraws the
      vote, otherwise the vote is cast (moving it from the other side). */
  function Optimistic(s: VoteState, k: VoteType): (r: VoteState)
    ensures r.userVote == if s.userVote == VoteOf(k) then NoVote else VoteOf(k)
    ensures forall iu: int, id: int :: Consistent(s, iu, id) ==> Consistent(r, iu, id)
    ensures -1 <= (r.up + r.down) - (s.up + s.down) <= 1
  {
    match k
    case UpvoteAction =>
      if s.userVote == Upvote then VoteState(s.up - 1, s.down, NoVote)
      else VoteState(s.up + 1, if s.userVote == Downvote then s.down - 1 else s.down, Upvote)
    case DownvoteAction =>
      if s.userVote == Downvote then VoteState(s.up, s.down - 1, NoVote)
      else VoteState(if s.userVote == Upvote then s.up - 1 else s.up, s.down + 1, Downvote)
  }

  /** The rollback as written: it always undoes a cast, also after a
      withdrawal. */
  function RollbackAsWritten(s: VoteState, k: VoteType, previous: Vote): (r: VoteState)
    ensures r.userVote == previous
  {
    match k
    case UpvoteAction => VoteState(s.up - 1, if previous == Downvote then s.down + 1 else s.down, previous)
    case DownvoteAction => VoteState(if previous == Upvote then s.up + 1 else s.up, s.down - 1, previous)
  }

  /** The rollback that undoes whatever the optimistic update did. */
  function Rollback(s: VoteState, k: VoteType, previous: Vote): (r: VoteState)
    ensures r.userVote == previous
  {
    if previous == VoteOf(k) then
      match k
      case UpvoteAction => VoteState(s.up + 1, s.down, previous)
      case DownvoteAction => VoteState(s.up, s.down + 1, previous)
    else RollbackAsWritten(s, k, previous)
  }

  /** A failed vote leaves the counts and the vote as they were. */
  lemma RollbackRestores(s: VoteState, k: VoteType)
    ensures Rollback(Optimistic(s, k), k, s.userVote) == s
  {
  }

  /** As written, the rollback restores a cast or a switch exactly ... */
  lemma RollbackAsWrittenRestoresCast(s: VoteState, k: VoteType)
    requires s.userVote != VoteOf(k)
    ensures RollbackAsWritten(Optimistic(s, k), k, s.userVote) == s
  {
  }

  /** ... but after a failed withdrawal it leaves the counter two below
      where it started. */
  lemma RollbackAsWrittenAfterWithdrawal(s: VoteState, k: VoteType)
    requires s.userVote == VoteOf(k)
    ensures var r := RollbackAsWritten(Optimistic(s, k), k, s.userVote);
      && r.userVote == s.userVote
      && (k == UpvoteAction ==> r.up == s.up - 2 && r.down == s.down)
      && (k == DownvoteAction ==> r.down == s.down - 2 && r.up == s.up)
  {
  }

  /** The concrete case: an upvoted comment showing 5 (4 from the server
      plus the reader's) whose withdrawal fails shows 3 and still counts
      the reader's upvote. */
  lemma WithdrawalRollbackExample()
    ensures var s := VoteState(5, 0, Upvote);
      && Consistent(s, 4, 0)
      && RollbackAsWritten(Optimistic(s, UpvoteAction), UpvoteAction, Upvote) == VoteState(3, 0, Upvote)
      && !Consistent(VoteState(3, 0, Upvote), 4, 0)
  {
  }

  /** The vote buttons of one comment. `initialUp` and `initialDown`
      are the counts it was rendered with. */
  class VoteWidget {
    var localUpvotes: int
    var localDownvotes: int
    var userVote: Vote
    ghost const initialUp: int
    ghost const initialDown: int

    ghost predicate Valid()
      reads this
    {
      Consistent(State(), initialUp, initialDown)
    }

    function State(): VoteState
      reads this
    {
      VoteState(localUpvotes, localDownvotes, userVote)
    }

    constructor(upvotes: int, downvotes: int)
      ensures Valid() && initialUp == upvotes && initialDown == downvotes
      ensures State() == VoteState(upvotes, downvotes, NoVote)
    {
      localUpvotes := upvotes;
      localDownvotes := downvotes;
      userVote := NoVote;
      initialUp := upvotes;
      initialDown := downvotes;
    }

    /** The optimistic update of `handleVote`, before the server call. */
    method ApplyOptimistic(k: VoteType)
      modifies this
      ensures State() == Optimistic(old(State()), k)
    {
      var currentVote := userVote;
      if k == UpvoteAction {
        if currentVote == Upvote {
          localUpvotes := localUpvotes - 1;
          userVote := NoVote;
        } else {
          localUpvotes := localUpvotes + 1;
          if currentVote == Downvote {
            localDownvotes := localDownvotes - 1;
          }
          userVote := Upvote;
        }
      } else {
        if currentVote == Downvote {
          localDownvotes := localDownvotes - 1;
          userVote := NoVote;
        } else {
          localDownvotes := localDownvotes + 1;
          if currentVote == Upvote {
            localUpvotes := localUpvotes - 1;
          }
          userVote := Downvote;
        }
      }
    }

    /** `handleVote` as written: the optimistic update, then, when the
        server call fails (`voteSucceeded` false), the rollback that
        always undoes a cast. The counts stay the server's plus the
        reader's vote except after a failed withdrawal. */
    method HandleVote(k: VoteType, voteSucceeded: bool)
      modifies this
      ensures voteSucceeded ==> State() == Optimistic(old(State()), k)
      ensures !voteSucceeded ==> State() == RollbackAsWritten(Optimistic(old(State()), k), k, old(userVote))
      ensures !voteSucceeded && old(userVote) != VoteOf(k) ==> State() == old(State())
      ensures old(Valid()) && (voteSucceeded || old(userVote) != VoteOf(k)) ==> Valid()
    {
      var currentVote := userVote;
      ghost var before := State();
      ApplyOptimistic(k);
      if !voteSucceeded {
        if k == UpvoteAction {
          localUpvotes := localUpvotes - 1;
          if currentVote == Downvote {
            localDownvotes := localDownvotes + 1;
          }
        } else {
          localDownvotes := localDownvotes - 1;
          if currentVote == Upvote {
            localUpvotes := localUpvotes + 1;
          }
        }
        userVote := currentVote;
        if currentVote != VoteOf(k) {
          RollbackAsWrittenRestoresCast(before, k);
        }
      }
    }

    /** `handleVote` with the rollback corrected: a failed call leaves the
        widget exactly as it was, so the counts always stay the server's
        plus the reader's vote. */
    method HandleVoteCorrected(k: VoteType, voteSucceeded: bool)
      requires Valid()
      modifies this
      ensures Valid()
      ensures voteSucceeded ==> State() == Optimistic(old(State()), k)
      ensures !voteSucceeded ==> State() == old(State())
    {
      var currentVote := userVote;
      ApplyOptimistic(k);
      if !voteSucceeded {
        if k == UpvoteAction {
          if currentVote == Upvote {
            localUpvotes := localUpvotes + 1;
          } else {
            localUpvotes := localUpvotes - 1;
            if currentVote == Downvote {
              localDownvotes := localDownvotes + 1;
            }
          }
        } else {
          if currentVote == Downvote {
            localDownvotes := localDownvotes + 1;
          } else {
            localDownvotes := localDownvotes - 1;
            if currentVote == Upvote {
              localUpvotes := localUpvotes + 1;
            }
          }
        }
        userVote := currentVote;
      }
    }
  }

  // ---------------------------------------------------------------------
  // Reply count.

  lemma {:induction false} FlattenAllSnoc(ts: seq<Node>, t: Node)
    ensures FlattenAll(ts + [t]) == FlattenAll(ts) + Flatten(t)
  {
    if |ts| == 0 {
      assert ts + [t] == [t];
    } else {
      assert (ts + [t])[1..] == ts[1..] + [t];
      FlattenAllSnoc(ts[1..], t);
    }
  }

  /** `countTotalReplies`: the direct replies, plus the replies counted
      below each of them. The result is the number of comments below `c`
      at any depth; a comment without replies has 0. */
  method CountTotalReplies(c: Node) returns (count: int)
    ensures count == |FlattenAll(c.replies)|
    decreases c
  {
    count := |c.replies|;
    var i := 0;
    while i < |c.replies|
      invariant 0 <= i <= |c.replies|
      invariant count == |c.replies| - i + |FlattenAll(c.replies[..i])|
    {
      var reply := c.replies[i];
      var below := CountTotalReplies(reply);
      FlattenAllSnoc(c.replies[..i], reply);
      assert c.replies[..i + 1] == c.replies[..i] + [reply];
      count := count + below;
      i := i + 1;
    }
    assert c.replies[..|c.replies|] == c.replies;
  }

  // ---------------------------------------------------------------------
  // Age of a comment.

  datatype TimeUnit = Second | Minute | Hour | Day | Month | Year

  function UnitName(u: TimeUnit): string {
    match u
    case Second => "second"
    case Minute => "minute"
    case Hour => "hour"
    case Day => "day"
    case Month => "month"
    case Year => "year"
  }

  /** The amount and unit `formatTimeAgo` shows for an age of `ms`
      milliseconds: the first unit whose count is below its limit, and
      the age in whole units of it. The divisions round down (Dafny's
      division rounds down for a positive divisor, as `Math.floor` of
      the quotient does); months are 30 days and years 365. */
  function TimeAgo(ms: int): (r: (int, TimeUnit))
    ensures var s := ms / 1000; var m := s / 60; var h := m / 60; var d := h / 24;
      && (r.1 == Second <==> s < 60)
      && (r.1 == Minute <==> 60 <= s && m < 60)
      && (r.1 == Hour <==> 60 <= m && h < 24)
      && (r.1 == Day <==> 24 <= h && d < 30)
      && (r.1 == Month <==> 30 <= d && d / 30 < 12)
      && (r.1 == Year <==> 12 <= d / 30)
    ensures r.1 == Second ==> r.0 == ms / 1000
    ensures r.1 == Minute ==> r.0 == ms / 60000
    ensures r.1 == Hour ==> r.0 == ms / 3600000
    ensures r.1 == Day ==> r.0 == ms / 86400000
    ensures r.1 == Month ==> r.0 == ms / 2592000000
    ensures r.1 == Year ==> r.0 == ms / 31536000000
  {
    var s := ms / 1000;
    var m := s / 60;
    var h := m / 60;
    var d := h / 24;
    if s < 60 then (s, Second)
    else if m < 60 then (m, Minute)
    else if h < 24 then (h, Hour)
    else if d < 30 then (d, Day)
    else if d / 30 < 12 then (d / 30, Month)
    else (d / 365, Year)
  }

  /** The text of an amount and a unit is plural exactly when the
      amount is not 1. */
  lemma AgoTextPlural(n: int, u: TimeUnit)
    ensures EndsWith(IntToString(n) + " " + UnitName(u) + (if n != 1 then "s" else "") + " ago", "s ago") <==> n != 1
  {
    var head := IntToString(n) + " " + UnitName(u);
    var r := IntToString(n) + " " + UnitName(u) + (if n != 1 then "s" else "") + " ago";
    assert head[|head| - 1] != 's';
    if n == 1 {
      assert r == head + " ago";
      assert r[|r| - 5] == head[|head| - 1];
    } else {
      assert r == head + "s" + " ago";
      assert r[|r| - 5..] == "s ago";
    }
  }

  /** `parseInt` reads the amount back from the text of an amount and a
      unit. */
  lemma AgoTextReadsBack(n: int, u: TimeUnit)
    ensures ParseInt10(IntToString(n) + " " + UnitName(u) + (if n != 1 then "s" else "") + " ago") == Some(n)
  {
    var rest := " " + UnitName(u) + (if n != 1 then "s" else "") + " ago";
    assert IntToString(n) + " " + UnitName(u) + (if n != 1 then "s" else "") + " ago" == IntToString(n) + rest;
    ParseIntOfIntToString(n, rest);
  }

  /** `formatTimeAgo`: the amount and the name of the unit `TimeAgo`
      picks, plural unless the amount is 1, and " ago"; the amount reads
      back with `parseInt`. */
  function FormatTimeAgo(ms: int): (r: string)
    ensures var head := IntToString(TimeAgo(ms).0) + " " + UnitName(TimeAgo(ms).1);
      |head| <= |r| && r[..|head|] == head
    ensures EndsWith(r, "s ago") <==> TimeAgo(ms).0 != 1
    ensures EndsWith(r, " ago")
    ensures ParseInt10(r) == Some(TimeAgo(ms).0)
  {
    var (n, u) := TimeAgo(ms);
    AgoTextPlural(n, u);
    AgoTextReadsBack(n, u);
    var head := IntToString(n) + " " + UnitName(u);
    var r := head + (if n != 1 then "s" else "") + " ago";
    assert r[..|head|] == head;
    assert r[|r| - 4..] == " ago";
    r
  }

  /** An age of whole days, counted down through the units. */
  lemma WholeDays(days: int)
    ensures var ms := days * 86400000;
      && ms / 1000 == days * 86400 && ms / 1000 / 60 == days * 1440
      && ms / 1000 / 60 / 60 == days * 24 && ms / 1000 / 60 / 60 / 24 == days
  {
    var ms := days * 86400000;
    assert ms / 1000 == days * 86400;
    assert ms / 1000 / 60 == days * 1440;
    assert ms / 1000 / 60 / 60 == days * 24;
  }

  /** The text for an age whose amount and unit are known. */
  lemma FormatOfAmount(ms: int, n: int, u: TimeUnit)
    requires TimeAgo(ms) == (n, u)
    ensures FormatTimeAgo(ms) == IntToString(n) + " " + UnitName(u) + (if n != 1 then "s" else "") + " ago"
  {
  }

  /** Ages from 90 to 119 days are three whole 30-day months: they show
      as "3 months ago". */
  lemma ThreeMonths(days: int)
    requires 90 <= days < 120
    ensures FormatTimeAgo(days * 86400000) == "3 months ago"
  {
    WholeDays(days);
    assert TimeAgo(days * 86400000) == (3, Month);
    FormatOfAmount(days * 86400000, 3, Month);
    assert IntToString(3) == [DigitChar(3)] == "3";
  }

  /** Ages from 360 to 364 days are past twelve 30-day months but short of
      a 365-day year: they show as "0 years ago". */
  lemma ZeroYearsGap(days: int)
    requires 360 <= days < 365
    ensures FormatTimeAgo(days * 86400000) == "0 years ago"
  {
    WholeDays(days);
    assert TimeAgo(days * 86400000) == (0, Year);
    FormatOfAmount(days * 86400000, 0, Year);
    assert IntToString(0) == [DigitChar(0)] == "0";
  }

  // ---------------------------------------------------------------------
  // Other per-comment decisions.

  /** The delete menu shows when the comment's author equals the display
      name stored in this browser (an absent name never matches). */
  function ShowDeleteMenu(author: string, storedDisplayName: Option<string>): (shown: bool)
    ensures shown <==> storedDisplayName.Some? && storedDisplayName.value == author
    ensures storedDisplayName.None? ==> !shown
  {
    storedDisplayName == Some(author)
  }

  /** `handleReply`: whitespace-only text is ignored; otherwise the
      trimmed text is passed to `onReply` with the comment's id and the
      open reply form is closed. */
  datatype ReplyCall = ReplyCall(parentId: string, content: string, displayName: string)
  datatype ReplyEffect = ReplyEffect(call: Option<ReplyCall>, activeReplyId: Option<string>)

  function HandleReply(commentId: string, content: string, displayName: string, activeReplyId: Option<string>): (e: ReplyEffect)
    ensures e.call.None? <==> AllWhitespace(content)
    ensures e.call.None? ==> e.activeReplyId == activeReplyId
    ensures e.call.Some? ==>
      && e.call.value.parentId == commentId && e.call.value.displayName == displayName
      && e.call.value.content != "" && e.call.value.content == Trim(content)
      && e.activeReplyId.None?
  {
    var replyContent := Trim(content);
    if replyContent == "" then ReplyEffect(None, activeReplyId)
    else ReplyEffect(Some(ReplyCall(commentId, replyContent, displayName)), None)
  }

  /** `Math.min(depth, maxIndentationDepth)`. */
  function EffectiveDepth(depth: int, maxIndentationDepth: int): (r: int)
    ensures r <= depth && r <= maxIndentationDepth
    ensures r == depth || r == maxIndentationDepth
  {
    if depth < maxIndentationDepth then depth else maxIndentationDepth
  }
}
