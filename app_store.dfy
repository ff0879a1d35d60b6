/** The UI store: the signed-in user, the dark-mode flag and the activity log, of which the
    three fields are also what is persisted. */
module AppStore {
  import opened Wrappers
  import opened Types
  import Seqs

  datatype LogType = Add | Edit | Delete
  {
    function Verb(): string
    {
      match this
      case Add => "Added"
      case Edit => "Edited"
      case Delete => "Deleted"
    }
  }

  datatype LogEntry = LogEntry(kind: LogType, message: string, timestamp: int)

  /** The message the users screen logs after a successful add, edit or delete. */
  function LogMessage(kind: LogType, name: string): (m: string)
    ensures |m| == |kind.Verb()| + 6 + |name|
    ensures m[..|kind.Verb()|] == kind.Verb() && m[|m| - |name|..] == name
    ensures m[|kind.Verb()|..|kind.Verb()| + 6] == " user "
  {
    kind.Verb() + " user " + name
  }

  /** The activity log keeps at most this many entries. */
  const MaxLog: nat := 50

  /** `addLog`'s update: the new entry first, then the old entries, cut to the cap. */
  function PushLog(log: seq<LogEntry>, entry: LogEntry): (r: seq<LogEntry>)
    ensures |r| == Seqs.Min(|log| + 1, MaxLog)
    ensures r[0] == entry
    ensures forall i :: 1 <= i < |r| ==> r[i] == log[i - 1]
  {
    Seqs.Slice([entry] + log, 0, MaxLog)
  }

  /** The log after pushing `entries` one by one, first to last. */
  function PushAll(log: seq<LogEntry>, entries: seq<LogEntry>): seq<LogEntry>
    decreases |entries|
  {
    if entries == [] then log else PushAll(PushLog(log, entries[0]), entries[1..])
  }

  function Reversed<T>(s: seq<T>): (r: seq<T>)
    ensures |r| == |s|
  {
    if s == [] then [] else Reversed(s[1..]) + [s[0]]
  }

  lemma {:induction false} TakeOfTake<T>(a: seq<T>, b: seq<T>, m: nat, n: nat)
    requires m <= |b| && n <= |a| + m
    ensures (a + b[..m])[..n] == (a + b)[..n]
  {
    assert forall i :: 0 <= i < n ==> (a + b[..m])[i] == (a + b)[i];
  }

  /** Starting from a log within the cap, after any pushes the log holds the `MaxLog` most
      recent entries of all it has seen, newest first. */
  lemma {:induction false} PushAllKeepsNewest(log: seq<LogEntry>, entries: seq<LogEntry>)
    requires |log| <= MaxLog
    ensures PushAll(log, entries) == (Reversed(entries) + log)[..Seqs.Min(|entries| + |log|, MaxLog)]
    decreases |entries|
  {
    if entries == [] {
      assert (Reversed(entries) + log)[..Seqs.Min(|entries| + |log|, MaxLog)] == log;
    } else {
      var e, rest := entries[0], entries[1..];
      var pushed := PushLog(log, e);
      assert pushed == ([e] + log)[..Seqs.Min(|log| + 1, MaxLog)];
      PushAllKeepsNewest(pushed, rest);
      var n := Seqs.Min(|rest| + |pushed|, MaxLog);
      assert n == Seqs.Min(|entries| + |log|, MaxLog);
      TakeOfTake(Reversed(rest), [e] + log, |pushed|, n);
      assert Reversed(entries) + log == Reversed(rest) + ([e] + log);
    }
  }

  /** The slice of the state `partialize` hands to storage. */
  datatype Persisted = Persisted(darkMode: bool, activityLog: seq<LogEntry>, currentUser: Option<User>)

  class Store {
    var currentUser: Option<User>
    var darkMode: bool
    var activityLog: seq<LogEntry>

    /** The log never exceeds its cap. */
    ghost predicate Valid()
      reads this
    {
      |activityLog| <= MaxLog
    }

    /** `partialize`: exactly the three data fields, none of the actions. */
    function Partialize(): (p: Persisted)
      reads this
      ensures p.darkMode == darkMode && p.activityLog == activityLog && p.currentUser == currentUser
    {
      Persisted(darkMode, activityLog, currentUser)
    }

    constructor ()
      ensures Valid()
      ensures currentUser == None && !darkMode && activityLog == []
    {
      currentUser, darkMode, activityLog := None, false, [];
    }

    method SetCurrentUser(user: User)
      modifies this
      ensures currentUser == Some(user)
      ensures darkMode == old(darkMode) && activityLog == old(activityLog)
    {
      currentUser := Some(user);
    }

    method ToggleDarkMode()
      modifies this
      ensures darkMode == !old(darkMode)
      ensures currentUser == old(currentUser) && activityLog == old(activityLog)
    {
      darkMode := !darkMode;
    }

    /** `addLog`, with the clock reading `now` passed in. */
    method AddLog(kind: LogType, message: string, now: int)
      modifies this
      ensures Valid()
      ensures activityLog == PushLog(old(activityLog), LogEntry(kind, message, now))
      ensures currentUser == old(currentUser) && darkMode == old(darkMode)
    {
      activityLog := PushLog(activityLog, LogEntry(kind, message, now));
    }

    /** Restoring a persisted slice; reading the slice back gives it unchanged. */
    method Rehydrate(p: Persisted)
      modifies this
      ensures Partialize() == p
      ensures Valid() <==> |p.activityLog| <= MaxLog
    {
      darkMode, activityLog, currentUser := p.darkMode, p.activityLog, p.currentUser;
    }
  }

  /** Toggling twice restores the flag, and nothing else moves. */
  method ToggleTwice(s: Store)
    modifies s
    ensures s.Partialize() == old(s.Partialize())
  {
    s.ToggleDarkMode();
    s.ToggleDarkMode();
  }
}
