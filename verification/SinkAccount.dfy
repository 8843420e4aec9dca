/**
 * An account of the rotating sink that is kept from the calls alone, without files: what the active file holds,
 * what was rotated away, newest first, and the size that the sink has in mind.
 */
module SinkAccount {
  import opened Bytes
  import opened Options
  import opened RotatingSink

  datatype Account = Account(cached: nat, active: seq<byte>, archives: seq<seq<byte>>)

  /** A log call is due to rotate when the size in mind would exceed the limit and the active file holds something. */
  predicate Due(a: Account, maxSize: nat, msg: seq<byte>) {
    a.cached + |msg| > maxSize && a.active != []
  }

  /** The size in mind starts again at the message of such a rotation, and not at `rotate_now`. */
  function Enter(a: Account, maxSize: nat, op: Op): Account {
    match op
    case Log(msg) =>
      if Due(a, maxSize, msg) then Account(|msg|, msg, [a.active] + a.archives)
      else Account(a.cached + |msg|, a.active + msg, a.archives)
    case RotateNow => Account(a.cached, [], [a.active] + a.archives)
  }

  function EnterAll(a: Account, maxSize: nat, ops: seq<Op>): Account {
    if ops == [] then a else Enter(EnterAll(a, maxSize, ops[..|ops| - 1]), maxSize, ops[|ops| - 1])
  }

  /** File 0 is the active one and file j the j-th newest that was rotated away, as far as the numbers go. */
  ghost predicate Archived(f: Files, n: nat, a: Account) {
    && Look(f, 0) == Some(a.active)
    && forall j: nat :: 1 <= j <= n && j <= |a.archives| ==> Look(f, j) == Some(a.archives[j - 1])
  }

  /** There is no other file within the numbers. */
  ghost predicate NoOthers(f: Files, n: nat, a: Account) {
    forall j: nat :: |a.archives| < j <= n ==> Look(f, j) == None
  }

  // ----- Rotation and appending -----

  lemma RotationArchives(f: Files, n: nat, a: Account, a': Account)
    requires Archived(f, n, a) && a'.active == [] && a'.archives == [a.active] + a.archives
    ensures Archived(Rotated(f, n), n, a')
    ensures NoOthers(f, n, a) ==> NoOthers(Rotated(f, n), n, a')
  {
    var g := Rotated(f, n);
    assert Look(g, 0) == Some([]);
    forall j: nat | 1 <= j <= n && j <= |a'.archives| ensures Look(g, j) == Some(a'.archives[j - 1]) {
      assert j - 1 == 0 || Look(f, j - 1) == Some(a.archives[j - 1 - 1]);
      assert Look(g, j) == ShiftedAt(f, n, 0, j) == Look(f, j - 1);
    }
    if NoOthers(f, n, a) {
      forall j: nat | |a'.archives| < j <= n ensures Look(g, j) == None {
        assert Look(g, j) == ShiftedAt(f, n, 0, j);
        assert Look(f, j - 1) == None && Look(f, j) == None;
      }
    }
  }

  lemma AppendArchives(f: Files, n: nat, a: Account, a': Account, msg: seq<byte>)
    requires Archived(f, n, a) && a'.active == a.active + msg && a'.archives == a.archives
    ensures Archived(f[0 := f[0] + msg], n, a')
    ensures NoOthers(f, n, a) ==> NoOthers(f[0 := f[0] + msg], n, a')
  {
    var g := f[0 := f[0] + msg];
    assert forall j: nat :: j >= 1 ==> Look(g, j) == Look(f, j);
  }

  lemma LogEnters(s: Sink, maxSize: nat, maxFiles: nat, a: Account, msg: seq<byte>)
    requires Archived(s.files, maxFiles, a) && s.currentSize == a.cached
    ensures var s', a' := Logged(s, maxSize, maxFiles, msg), Enter(a, maxSize, Log(msg));
            && s'.currentSize == a'.cached && Archived(s'.files, maxFiles, a')
            && (NoOthers(s.files, maxFiles, a) ==> NoOthers(s'.files, maxFiles, a'))
  {
    var a' := Enter(a, maxSize, Log(msg));
    if Due(a, maxSize, msg) {
      var between := a.(active := [], archives := [a.active] + a.archives);
      RotationArchives(s.files, maxFiles, a, between);
      assert [] + msg == msg;
      AppendArchives(Rotated(s.files, maxFiles), maxFiles, between, a', msg);
    } else {
      AppendArchives(s.files, maxFiles, a, a', msg);
    }
  }

  lemma ApplyEnters(s: Sink, maxSize: nat, maxFiles: nat, a: Account, op: Op)
    requires Archived(s.files, maxFiles, a) && s.currentSize == a.cached
    ensures var s', a' := Apply(s, maxSize, maxFiles, op), Enter(a, maxSize, op);
            && s'.currentSize == a'.cached && Archived(s'.files, maxFiles, a')
            && (NoOthers(s.files, maxFiles, a) ==> NoOthers(s'.files, maxFiles, a'))
  {
    match op
    case Log(msg) => LogEnters(s, maxSize, maxFiles, a, msg);
    case RotateNow => RotationArchives(s.files, maxFiles, a, Enter(a, maxSize, op));
  }

  /** Over every sequence of calls the sink agrees with the account: the size in mind and what every file holds. */
  lemma {:induction false} AccountIsExact(s: Sink, maxSize: nat, maxFiles: nat, a: Account, ops: seq<Op>)
    requires Archived(s.files, maxFiles, a) && s.currentSize == a.cached
    ensures var s', a' := Run(s, maxSize, maxFiles, ops), EnterAll(a, maxSize, ops);
            && s'.currentSize == a'.cached && Archived(s'.files, maxFiles, a')
            && (NoOthers(s.files, maxFiles, a) ==> NoOthers(s'.files, maxFiles, a'))
    decreases |ops|
  {
    if ops != [] {
      var rest := ops[..|ops| - 1];
      AccountIsExact(s, maxSize, maxFiles, a, rest);
      ApplyEnters(Run(s, maxSize, maxFiles, rest), maxSize, maxFiles, EnterAll(a, maxSize, rest), ops[|ops| - 1]);
    }
  }

  /**
   * A log call, after any calls: when it is due by the account, it puts the message alone into file 0 and what file 0
   * held into file 1, and otherwise it appends the message to file 0 and touches no other file.
   */
  lemma LogRotatesWhenDue(s: Sink, maxSize: nat, maxFiles: nat, a: Account, ops: seq<Op>, msg: seq<byte>)
    requires Archived(s.files, maxFiles, a) && s.currentSize == a.cached && maxFiles >= 1
    ensures var s1, a1 := Run(s, maxSize, maxFiles, ops), EnterAll(a, maxSize, ops);
            var s2 := Apply(s1, maxSize, maxFiles, Log(msg));
            && s1.files[0] == a1.active && 0 in s2.files
            && (Due(a1, maxSize, msg) <==>
                  s1.files[0] != [] && s2.files[0] == msg && Look(s2.files, 1) == Some(s1.files[0]))
            && (!Due(a1, maxSize, msg) ==> s2.files == s1.files[0 := s1.files[0] + msg])
  {
    var s1, a1 := Run(s, maxSize, maxFiles, ops), EnterAll(a, maxSize, ops);
    AccountIsExact(s, maxSize, maxFiles, a, ops);
    LogEnters(s1, maxSize, maxFiles, a1, msg);
    assert Look(s1.files, 0) == Some(a1.active);
    if Due(a1, maxSize, msg) {
      var a2, s2 := Enter(a1, maxSize, Log(msg)), Logged(s1, maxSize, maxFiles, msg);
      assert Look(s2.files, 0) == Some(a2.active) && Look(s2.files, 1) == Some(a2.archives[1 - 1]);
    }
  }

  // ----- Opening -----

  /**
   * Opening: with `rotate_on_open` and a non-empty file 0, that file is emptied, its contents become file 1 if there
   * may be one, no more than the oldest file is lost and the size in mind is 0. Otherwise every file stays as
   * it is, file 0 exists, and the size in mind is its true size.
   */
  lemma OpeningDoes(f: Files, maxFiles: nat, rotateOnOpen: bool)
    ensures var s := Opened(f, maxFiles, rotateOnOpen);
            if rotateOnOpen && Content(f, 0) != [] then
              && s.currentSize == 0 && Look(s.files, 0) == Some([])
              && (maxFiles >= 1 ==> Look(s.files, 1) == Look(f, 0))
              && (forall j: nat :: j > maxFiles && j > 0 ==> Look(s.files, j) == Look(f, j))
              && Concat(s.files, maxFiles) ==
                 (if maxFiles == 0 then []
                  else if maxFiles - 1 in f then Concat(f, maxFiles - 1) else Concat(f, maxFiles))
            else
              && Look(s.files, 0) == Some(Content(f, 0)) && s.currentSize == |Content(f, 0)|
              && (forall j: nat :: j > 0 ==> Look(s.files, j) == Look(f, j))
  {
    var f' := if 0 in f then f else f[0 := []];
    if rotateOnOpen && Content(f, 0) != [] {
      assert f' == f;
      RotationDropsOldest(f, maxFiles);
      assert Look(Rotated(f, maxFiles), 0) == Some([]);
      if maxFiles >= 1 {
        assert Look(Rotated(f, maxFiles), 1) == ShiftedAt(f, maxFiles, 0, 1);
      }
    }
  }

  /** The account that a sink on these files starts with. */
  function OpeningAccount(f: Files, rotateOnOpen: bool): Account {
    var active := Content(f, 0);
    if rotateOnOpen && active != [] then Account(0, [], [active]) else Account(|active|, active, [])
  }

  /** From whatever is on disk, the sink agrees with its account ever after. */
  lemma AccountFromDisk(f: Files, rotateOnOpen: bool, maxSize: nat, maxFiles: nat, ops: seq<Op>)
    ensures 0 in Opened(f, maxFiles, rotateOnOpen).files
    ensures var s := Run(Opened(f, maxFiles, rotateOnOpen), maxSize, maxFiles, ops);
            var a := EnterAll(OpeningAccount(f, rotateOnOpen), maxSize, ops);
            s.currentSize == a.cached && Archived(s.files, maxFiles, a)
  {
    var s, a := Opened(f, maxFiles, rotateOnOpen), OpeningAccount(f, rotateOnOpen);
    OpeningDoes(f, maxFiles, rotateOnOpen);
    assert Look(s.files, 0) == Some(a.active);
    AccountIsExact(s, maxSize, maxFiles, a, ops);
  }
}
