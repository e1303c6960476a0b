/** The GitHub issue tracker of one repository, as the Sentry scripts see
    it through the REST API: numbered issues (pull requests among them)
    with a title, a state, labels, a body and a thread of comments. Issue
    numbers are assigned by the tracker; the moment of a creation or a
    comment is the caller's `now`. */
module IssueTracker {
  import opened Wrappers
  import opened Seqs

  datatype IssueState = Open | Closed

  /** A comment as the API returns it; its body may be absent. */
  datatype Comment = Comment(body: Option<string>, createdAt: int)

  datatype Issue = Issue(number: int, title: string, state: IssueState, createdAt: int,
                         labels: seq<string>, isPullRequest: bool, body: string, comments: seq<Comment>)

  /** The position of the issue numbered `number`, if there is one. */
  function IndexOf(issues: seq<Issue>, number: int): (r: Option<nat>)
    ensures r.Some? ==> r.value < |issues| && issues[r.value].number == number
    ensures r.None? <==> forall i :: 0 <= i < |issues| ==> issues[i].number != number
    decreases |issues|
  {
    if issues == [] then None
    else if issues[0].number == number then Some(0)
    else match IndexOf(issues[1..], number)
      case None => None
      case Some(i) => Some(i + 1)
  }

  predicate HasIssue(issues: seq<Issue>, number: int) {
    IndexOf(issues, number).Some?
  }

  /** The comments of an issue; none for a number the tracker does not have. */
  function CommentsOf(issues: seq<Issue>, number: int): seq<Comment> {
    match IndexOf(issues, number)
    case None => []
    case Some(i) => issues[i].comments
  }

  /** The issues after `comment` is added to the issue numbered `number`. */
  function WithComment(issues: seq<Issue>, number: int, comment: Comment): (r: seq<Issue>)
    ensures |r| == |issues|
  {
    seq(|issues|, i requires 0 <= i < |issues| =>
      if issues[i].number == number then issues[i].(comments := issues[i].comments + [comment]) else issues[i])
  }

  /** The issues after the issue numbered `number` is opened again. */
  function WithReopened(issues: seq<Issue>, number: int): (r: seq<Issue>)
    ensures |r| == |issues|
  {
    seq(|issues|, i requires 0 <= i < |issues| =>
      if issues[i].number == number then issues[i].(state := Open) else issues[i])
  }

  /** The issues (and pull requests) carrying `label`, in tracker order. */
  function Labeled(issues: seq<Issue>, name: string): seq<Issue> {
    Filter(issues, (x: Issue) => name in x.labels)
  }

  /** The issues carrying `label` as the issue listing returns them: the
      most recently opened first. */
  function Listed(issues: seq<Issue>, name: string): seq<Issue> {
    Reverse(Labeled(issues, name))
  }

  /** Distinct issues have distinct numbers, all positive and below the
      next one to be handed out. */
  ghost predicate DistinctNumbers(issues: seq<Issue>) {
    forall i, j :: 0 <= i < j < |issues| ==> issues[i].number != issues[j].number
  }

  ghost predicate NumbersValid(issues: seq<Issue>, nextNumber: int) {
    nextNumber > 0 && DistinctNumbers(issues)
    && (forall i :: 0 <= i < |issues| ==> 0 < issues[i].number < nextNumber)
  }

  /** Adding a comment to one issue leaves every other issue as it was. */
  lemma CommentsOfWithComment(issues: seq<Issue>, number: int, comment: Comment, n: int)
    requires DistinctNumbers(issues)
    ensures CommentsOf(WithComment(issues, number, comment), n)
         == if n == number && HasIssue(issues, n) then CommentsOf(issues, n) + [comment] else CommentsOf(issues, n)
  {
    var r := WithComment(issues, number, comment);
    assert forall i :: 0 <= i < |r| ==> r[i].number == issues[i].number;
    IndexOfSameNumbers(issues, r);
  }

  /** Reopening changes no issue's comments. */
  lemma CommentsOfWithReopened(issues: seq<Issue>, number: int, n: int)
    ensures CommentsOf(WithReopened(issues, number), n) == CommentsOf(issues, n)
  {
    var r := WithReopened(issues, number);
    assert forall i :: 0 <= i < |r| ==> r[i].number == issues[i].number;
    IndexOfSameNumbers(issues, r);
  }

  /** A new issue does not change the comments of the issues already there,
      and has none itself. */
  lemma CommentsOfAppended(issues: seq<Issue>, issue: Issue, n: int)
    requires issue.comments == []
    ensures CommentsOf(issues + [issue], n) == CommentsOf(issues, n)
  {
    IndexOfAppend(issues, issue, n);
  }

  /** Commenting, reopening and opening a new issue under the next number
      keep the numbering valid. */
  lemma NumbersValidUpdates(issues: seq<Issue>, nextNumber: int, number: int, comment: Comment, added: Issue)
    requires NumbersValid(issues, nextNumber)
    ensures NumbersValid(WithComment(issues, number, comment), nextNumber)
    ensures NumbersValid(WithReopened(issues, number), nextNumber)
    ensures added.number == nextNumber ==> NumbersValid(issues + [added], nextNumber + 1)
  {
    var a := WithComment(issues, number, comment);
    var b := WithReopened(issues, number);
    assert forall i :: 0 <= i < |a| ==> a[i].number == issues[i].number;
    assert forall i :: 0 <= i < |b| ==> b[i].number == issues[i].number;
  }

  lemma {:induction false} IndexOfSameNumbers(a: seq<Issue>, b: seq<Issue>)
    requires |a| == |b| && forall i :: 0 <= i < |a| ==> a[i].number == b[i].number
    ensures forall n :: IndexOf(a, n) == IndexOf(b, n)
    decreases |a|
  {
    if a != [] {
      IndexOfSameNumbers(a[1..], b[1..]);
    }
  }

  lemma {:induction false} IndexOfAppend(issues: seq<Issue>, issue: Issue, n: int)
    ensures IndexOf(issues + [issue], n)
         == if HasIssue(issues, n) then IndexOf(issues, n) else if issue.number == n then Some(|issues|) else None
    decreases |issues|
  {
    if issues != [] {
      assert (issues + [issue])[1..] == issues[1..] + [issue];
      IndexOfAppend(issues[1..], issue, n);
    }
  }

  class Tracker {
    var issues: seq<Issue>
    var nextNumber: int

    ghost predicate Valid()
      reads this
    {
      NumbersValid(issues, nextNumber)
    }

    /** An empty tracker; the first issue gets number 1. */
    constructor ()
      ensures Valid() && issues == [] && nextNumber == 1
    {
      issues := [];
      nextNumber := 1;
    }

    /** `GET /repos/{repo}/issues?state=all&labels={name}`, all pages. The
        API's default order is newest first (`sort=created`,
        `direction=desc`), and the tracker keeps its issues in the order
        they were opened, so the listing is that order reversed. */
    function LabeledIssues(name: string): seq<Issue>
      reads this
    {
      Listed(issues, name)
    }

    /** `GET /repos/{repo}/issues/{number}/comments`, all pages. */
    function Comments(number: int): seq<Comment>
      reads this
    {
      CommentsOf(issues, number)
    }

    /** `POST /repos/{repo}/issues`: a new open issue, numbered by the tracker. */
    method CreateIssue(title: string, body: string, labels: seq<string>, now: int) returns (number: int)
      requires Valid()
      modifies this
      ensures Valid()
      ensures number == old(nextNumber) && nextNumber == old(nextNumber) + 1
      ensures issues == old(issues) + [Issue(number, title, Open, now, labels, false, body, [])]
    {
      number := nextNumber;
      issues := issues + [Issue(number, title, Open, now, labels, false, body, [])];
      nextNumber := nextNumber + 1;
    }

    /** `PATCH /repos/{repo}/issues/{number}` with `state: "open"`. */
    method Reopen(number: int)
      requires Valid()
      modifies this
      ensures Valid()
      ensures issues == WithReopened(old(issues), number) && nextNumber == old(nextNumber)
    {
      issues := WithReopened(issues, number);
    }

    /** `POST /repos/{repo}/issues/{number}/comments`; `ok` is false, and
        nothing changes, when the tracker has no such issue (the request
        fails). */
    method AddComment(number: int, body: string, now: int) returns (ok: bool)
      requires Valid()
      modifies this
      ensures Valid()
      ensures ok == HasIssue(old(issues), number)
      ensures issues == WithComment(old(issues), number, Comment(Some(body), now)) && nextNumber == old(nextNumber)
    {
      ok := IndexOf(issues, number).Some?;
      issues := WithComment(issues, number, Comment(Some(body), now));
    }
  }
}
