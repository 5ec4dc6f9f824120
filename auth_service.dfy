/**
 * The kiosk clock action and the admin login: matching a PIN against the
 * employees, the two-state clock machine, the greeting built from the
 * employee's email, and the audit entries each path writes.
 */
module AuthService {
  import opened Wrappers
  import opened Entities
  import opened Exceptions
  import opened Repositories
  import opened Text
  import AuditService

  // ---------------------------------------------------------------------
  // PIN matching
  // ---------------------------------------------------------------------

  /** The position of the first candidate whose stored hash matches `pin`. */
  function FirstMatch(candidates: seq<User>, enc: PasswordEncoder, pin: string): (r: Option<nat>)
    ensures r.Some? ==> r.value < |candidates| && enc.matches(pin, candidates[r.value].password)
    ensures r.Some? ==> forall j :: 0 <= j < r.value ==> !enc.matches(pin, candidates[j].password)
    ensures r.None? <==> forall j :: 0 <= j < |candidates| ==> !enc.matches(pin, candidates[j].password)
  {
    if candidates == [] then None
    else if enc.matches(pin, candidates[0].password) then Some(0)
    else match FirstMatch(candidates[1..], enc, pin)
      case None => None
      case Some(k) => Some(k + 1)
  }

  /** candidates[k] is the first candidate whose stored hash matches `pin`. */
  predicate FirstMatchAt(candidates: seq<User>, enc: PasswordEncoder, pin: string, k: int)
  {
    0 <= k < |candidates| && enc.matches(pin, candidates[k].password)
    && forall j :: 0 <= j < k ==> !enc.matches(pin, candidates[j].password)
  }

  /** The employee the kiosk resolves `pin` to: admins are never candidates. */
  function MatchEmployee(users: seq<User>, enc: PasswordEncoder, pin: string): (r: Option<User>)
    ensures r.Some? ==> r.value in users && r.value.role == RoleEmployee && enc.matches(pin, r.value.password)
    ensures r.None? <==> forall u :: u in users && u.role == RoleEmployee ==> !enc.matches(pin, u.password)
    // the first employee, in store order, whose hash matches
    ensures r.Some? ==> exists k :: FirstMatchAt(FindAllByRole(users, RoleEmployee), enc, pin, k) && FindAllByRole(users, RoleEmployee)[k] == r.value
  {
    var employees := FindAllByRole(users, RoleEmployee);
    match FirstMatch(employees, enc, pin)
    case None =>
      assert forall u :: u in employees ==> !enc.matches(pin, u.password) by {
        forall u | u in employees ensures !enc.matches(pin, u.password) {
          var j :| 0 <= j < |employees| && employees[j] == u;
        }
      }
      None
    case Some(k) =>
      assert employees[k] in users;
      assert FirstMatchAt(employees, enc, pin, k);
      Some(employees[k])
  }

  // ---------------------------------------------------------------------
  // The clock state machine
  // ---------------------------------------------------------------------

  /**
   * The log the kiosk writes for `employee` at `now`, before the store
   * assigns its id: absent or CLOCK_OUT latest log gives a CLOCK_IN in a
   * fresh session; a CLOCK_IN latest log gives the CLOCK_OUT of its session.
   */
  function NextClockLog(latest: Option<ClockLog>, employee: User, now: int, freshSessionId: string): (n: ClockLog)
    ensures n.id == 0 && n.owner == OwnerOf(employee) && n.timestamp == now
    ensures n.action == ClockOut <==> latest.Some? && latest.value.action == ClockIn
    ensures n.action == ClockIn ==> n.sessionId == Some(freshSessionId) && n.durationHours.None?
    ensures n.action == ClockOut ==>
              && n.sessionId == latest.value.sessionId
              && n.durationHours == Some(HoursOf(WholeMinutes(latest.value.timestamp, now)))
  {
    if latest.None? || latest.value.action == ClockOut then
      ClockLog(0, OwnerOf(employee), ClockIn, now, Some(freshSessionId), None)
    else
      assert latest.value.action == ClockIn;
      ClockLog(0, OwnerOf(employee), ClockOut, now, latest.value.sessionId,
               Some(HoursOf(WholeMinutes(latest.value.timestamp, now))))
  }

  /**
   * One user's logs in store order form a proper history: they alternate
   * CLOCK_IN, CLOCK_OUT, ... starting with CLOCK_IN, timestamps never
   * decrease, a CLOCK_IN carries no duration, and each CLOCK_OUT carries the
   * session of the CLOCK_IN before it and the whole minutes since it, in hours.
   */
  ghost predicate WellFormedHistory(h: seq<ClockLog>)
  {
    Alternates(h) && TimestampsOrdered(h) && ClockInsUntimed(h) && ClockOutsPaired(h)
  }

  ghost predicate Alternates(h: seq<ClockLog>)
  {
    forall i :: 0 <= i < |h| ==> h[i].action == (if i % 2 == 0 then ClockIn else ClockOut)
  }

  ghost predicate TimestampsOrdered(h: seq<ClockLog>)
  {
    forall i, j :: 0 <= i < j < |h| ==> h[i].timestamp <= h[j].timestamp
  }

  ghost predicate ClockInsUntimed(h: seq<ClockLog>)
  {
    forall i :: 0 <= i < |h| && h[i].action == ClockIn ==> h[i].durationHours.None?
  }

  /** Each CLOCK_OUT at position j closes the session of the log at j - 1. */
  ghost predicate ClockOutsPaired(h: seq<ClockLog>)
  {
    forall i, j :: 0 <= i && j == i + 1 && j < |h| && h[j].action == ClockOut ==>
      && h[j].sessionId == h[i].sessionId
      && h[j].durationHours == Some(HoursOf(WholeMinutes(h[i].timestamp, h[j].timestamp)))
  }

  ghost predicate HistoriesWellFormed(logs: seq<ClockLog>)
  {
    forall uid :: WellFormedHistory(LogsOf(logs, uid))
  }

  /** No log of user `uid` lies after `now`. */
  ghost predicate ClockNotBehind(logs: seq<ClockLog>, uid: int, now: int)
  {
    forall l :: l in logs && l.owner.id == uid ==> l.timestamp <= now
  }

  lemma LogsOfAppend(logs: seq<ClockLog>, x: ClockLog, uid: int)
    ensures LogsOf(logs + [x], uid) == LogsOf(logs, uid) + (if x.owner.id == uid then [x] else [])
  {

  }

  /** When a user's timestamps never decrease, the latest log is the last one saved. */
  lemma {:induction false} LatestIsLastOfHistory(logs: seq<ClockLog>, uid: int)
    requires TimestampsOrdered(LogsOf(logs, uid))
    ensures var h := LogsOf(logs, uid); LatestLog(logs, uid) == if h == [] then None else Some(h[|h| - 1])
  {
    if logs != [] {
      var prefix, last := logs[..|logs| - 1], logs[|logs| - 1];
      assert logs == prefix + [last];
      LogsOfAppend(prefix, last, uid);
      OrderedPrefix(LogsOf(logs, uid), |LogsOf(prefix, uid)|);
      assert LogsOf(logs, uid)[..|LogsOf(prefix, uid)|] == LogsOf(prefix, uid);
      LatestIsLastOfHistory(prefix, uid);
    }
  }

  lemma OrderedPrefix(h: seq<ClockLog>, k: nat)
    requires TimestampsOrdered(h) && k <= |h|
    ensures TimestampsOrdered(h[..k])
  {

  }

  /**
   * The kiosk keeps every user's history well formed: appending the log the
   * state machine produces for `employee` preserves the alternation, the
   * session pairing and the durations, provided the clock is not behind
   * the employee's latest log.
   */
  lemma {:induction false} KioskPreservesHistories(logs: seq<ClockLog>, employee: User, now: int, freshSessionId: string, id: int)
    requires HistoriesWellFormed(logs)
    requires ClockNotBehind(logs, employee.id, now)
    ensures HistoriesWellFormed(logs + [NextClockLog(LatestLog(logs, employee.id), employee, now, freshSessionId).(id := id)])
  {
    var n := NextClockLog(LatestLog(logs, employee.id), employee, now, freshSessionId).(id := id);
    forall uid ensures WellFormedHistory(LogsOf(logs + [n], uid)) {
      assert WellFormedHistory(LogsOf(logs, uid));
      if uid == employee.id {
        EmployeeHistoryStep(logs, employee, now, freshSessionId, id);
      } else {
        LogsOfAppend(logs, n, uid);
      }
    }
  }

  /** The acting employee's own history stays well formed. */
  lemma EmployeeHistoryStep(logs: seq<ClockLog>, employee: User, now: int, freshSessionId: string, id: int)
    requires WellFormedHistory(LogsOf(logs, employee.id))
    requires ClockNotBehind(logs, employee.id, now)
    ensures WellFormedHistory(LogsOf(logs + [NextClockLog(LatestLog(logs, employee.id), employee, now, freshSessionId).(id := id)], employee.id))
  {
    var h := LogsOf(logs, employee.id);
    var latest := if h == [] then None else Some(h[|h| - 1]);
    LatestIsLastOfHistory(logs, employee.id);
    assert LatestLog(logs, employee.id) == latest;
    var n := NextClockLog(latest, employee, now, freshSessionId).(id := id);
    LogsOfAppend(logs, n, employee.id);
    assert LogsOf(logs + [n], employee.id) == h + [n];
    forall l | l in h ensures l.timestamp <= now {
      assert l in logs && l.owner.id == employee.id;
    }
    HistoryStep(h, employee, now, freshSessionId, id);
  }

  /** One step of the state machine on a single well-formed history. */
  lemma HistoryStep(h: seq<ClockLog>, employee: User, now: int, freshSessionId: string, id: int)
    requires WellFormedHistory(h)
    requires forall l :: l in h ==> l.timestamp <= now
    ensures var latest := if h == [] then None else Some(h[|h| - 1]);
            WellFormedHistory(h + [NextClockLog(latest, employee, now, freshSessionId).(id := id)])
  {
    var latest := if h == [] then None else Some(h[|h| - 1]);
    var n := NextClockLog(latest, employee, now, freshSessionId).(id := id);
    StepAlternates(h, n);
    StepOrdered(h, n);
    StepUntimed(h, n);
    StepPaired(h, n);
  }

  lemma StepAlternates(h: seq<ClockLog>, n: ClockLog)
    requires Alternates(h)
    requires n.action == (if h == [] || h[|h| - 1].action == ClockOut then ClockIn else ClockOut)
    ensures Alternates(h + [n])
  {

  }

  lemma StepOrdered(h: seq<ClockLog>, n: ClockLog)
    requires TimestampsOrdered(h)
    requires forall l :: l in h ==> l.timestamp <= n.timestamp
    ensures TimestampsOrdered(h + [n])
  {

  }

  lemma StepUntimed(h: seq<ClockLog>, n: ClockLog)
    requires ClockInsUntimed(h)
    requires n.action == ClockIn ==> n.durationHours.None?
    ensures ClockInsUntimed(h + [n])
  {

  }

  lemma StepPaired(h: seq<ClockLog>, n: ClockLog)
    requires ClockOutsPaired(h)
    requires n.action == ClockOut ==> h != []
    requires n.action == ClockOut ==>
      && n.sessionId == h[|h| - 1].sessionId
      && n.durationHours == Some(HoursOf(WholeMinutes(h[|h| - 1].timestamp, n.timestamp)))
    ensures ClockOutsPaired(h + [n])
  {

  }

  /** In a well-formed history every recorded duration is non-negative. */
  lemma HistoryDurationsNonNegative(h: seq<ClockLog>, j: int)
    requires WellFormedHistory(h)
    requires 0 < j < |h| && h[j].action == ClockOut
    ensures h[j].durationHours.Some? && h[j].durationHours.value >= 0.0
  {
    assert h[j - 1].timestamp <= h[j].timestamp;
  }

  // ---------------------------------------------------------------------
  // Display name from an email address
  // ---------------------------------------------------------------------

  predicate IsSeparator(c: char)
  {
    c == '.' || c == '_' || c == '-'
  }

  /** email.split("@")[0]: everything before the first '@'. */
  function LocalPart(email: string): (r: string)
    ensures |r| <= |email| && r == email[..|r|] && '@' !in r
    ensures '@' in email ==> |r| < |email| && email[|r|] == '@'
  {
    if email == [] || email[0] == '@' then []
    else [email[0]] + LocalPart(email[1..])
  }

  /** Length of the separator-free run at the start of `s`. */
  function RunLength(s: string): (k: nat)
    ensures k <= |s|
    ensures forall i :: 0 <= i < k ==> !IsSeparator(s[i])
    ensures k < |s| ==> IsSeparator(s[k])
  {
    if s == [] || IsSeparator(s[0]) then 0 else 1 + RunLength(s[1..])
  }

  /** The characters of `s` that are not separators, in order. */
  function WithoutSeparators(s: string): string
  {
    if s == [] then [] else (if IsSeparator(s[0]) then [] else [s[0]]) + WithoutSeparators(s[1..])
  }

  /** The leading run of `s`, then the non-separator characters after the separator that ends it. */
  lemma {:induction false} WithoutSeparatorsAtRun(s: string)
    ensures RunLength(s) == |s| ==> WithoutSeparators(s) == s
    ensures RunLength(s) < |s| ==> WithoutSeparators(s) == s[..RunLength(s)] + WithoutSeparators(s[RunLength(s) + 1..])
  {
    if s == [] {
    } else if IsSeparator(s[0]) {
      assert s[..0] == [] && WithoutSeparators(s) == [] + WithoutSeparators(s[1..]);
    } else {
      var t := s[1..];
      WithoutSeparatorsAtRun(t);
      if RunLength(t) < |t| {
        WithoutSeparatorsAtLongerRun(s);
      } else {
        assert s == [s[0]] + t;
      }
    }
  }

  /** The inductive step of WithoutSeparatorsAtRun when a separator ends the run. */
  lemma {:induction false} WithoutSeparatorsAtLongerRun(s: string)
    requires s != [] && !IsSeparator(s[0]) && RunLength(s[1..]) < |s| - 1
    requires WithoutSeparators(s[1..]) == s[1..][..RunLength(s[1..])] + WithoutSeparators(s[1..][RunLength(s[1..]) + 1..])
    ensures RunLength(s) < |s| && WithoutSeparators(s) == s[..RunLength(s)] + WithoutSeparators(s[RunLength(s) + 1..])
  {
    var t := s[1..];
    var k := RunLength(t);
    var tail := WithoutSeparators(t[k + 1..]);
    assert RunLength(s) == k + 1;
    assert t[k + 1..] == s[k + 2..];
    assert s[..k + 1] == [s[0]] + t[..k];
    calc {
      WithoutSeparators(s);
      [s[0]] + WithoutSeparators(t);
      [s[0]] + (t[..k] + tail);
      ([s[0]] + t[..k]) + tail;
      s[..k + 1] + WithoutSeparators(s[k + 2..]);
    }
  }

  /**
   * namePart.split("[._-]") with the empty pieces filtered out: the maximal
   * non-empty runs of `s` that contain no separator. Together the pieces
   * hold every non-separator character of `s`, in order.
   */
  function Fragments(s: string): (r: seq<string>)
    ensures forall i :: 0 <= i < |r| ==> |r[i]| > 0
    ensures forall i :: 0 <= i < |r| ==> forall c :: c in r[i] ==> !IsSeparator(c) && c in s
    ensures Flatten(r) == WithoutSeparators(s)
    decreases |s|
  {
    var k := RunLength(s);
    WithoutSeparatorsAtRun(s);
    if k == |s| then (if k == 0 then [] else [s])
    else
      var rest := Fragments(s[k + 1..]);
      assert k == 0 ==> [] + rest == rest;
      assert k > 0 ==> Flatten([s[..k]] + rest) == s[..k] + Flatten(rest) by {
        assert ([s[..k]] + rest)[1..] == rest;
      }
      (if k == 0 then [] else [s[..k]]) + rest
  }

  /** First character upper-cased, the rest lower-cased. */
  function Capitalize(word: string): (r: string)
    requires |word| > 0
    ensures |r| == |word|
    ensures r[0] == ToUpper(word[0])
    ensures forall i :: 0 < i < |word| ==> r[i] == ToLower(word[i])
  {
    [ToUpper(word[0])] + LowerAll(word[1..])
  }

  function CapitalizeAll(words: seq<string>): (r: seq<string>)
    requires forall i :: 0 <= i < |words| ==> |words[i]| > 0
    ensures |r| == |words| && forall i :: 0 <= i < |words| ==> r[i] == Capitalize(words[i])
  {
    seq(|words|, i requires 0 <= i < |words| => Capitalize(words[i]))
  }

  /**
   * extractNameFromEmail: "User" when there is no '@'; otherwise the
   * fragments of the local part, each capitalized, joined by single spaces.
   */
  function ExtractNameFromEmail(email: string): (name: string)
    ensures '@' !in email ==> name == "User"
  {
    if '@' !in email then "User"
    else JoinWith(' ', CapitalizeAll(Fragments(LocalPart(email))))
  }

  lemma {:induction false} RunLengthAtSeparator(w: string, c: char, rest: string)
    requires forall i :: 0 <= i < |w| ==> !IsSeparator(w[i])
    requires IsSeparator(c)
    ensures RunLength(w + [c] + rest) == |w|
  {
    if w != [] {
      assert (w + [c] + rest)[1..] == w[1..] + [c] + rest;
      RunLengthAtSeparator(w[1..], c, rest);
    }
  }

  lemma {:induction false} RunLengthWhole(w: string)
    requires forall i :: 0 <= i < |w| ==> !IsSeparator(w[i])
    ensures RunLength(w) == |w|
  {

  }

  lemma {:induction false} LocalPartBeforeAt(p: string, rest: string)
    requires '@' !in p
    ensures LocalPart(p + "@" + rest) == p
  {
    if p != [] {
      assert (p + "@" + rest)[1..] == p[1..] + "@" + rest;
      LocalPartBeforeAt(p[1..], rest);
    }
  }

  /** Every character of `g` is a separator. */
  predicate SeparatorRun(g: string)
  {
    forall i :: 0 <= i < |g| ==> IsSeparator(g[i])
  }

  /** Non-empty words without separators. */
  predicate NameWords(words: seq<string>)
  {
    forall i :: 0 <= i < |words| ==> |words[i]| > 0 && forall c :: c in words[i] ==> !IsSeparator(c)
  }

  /** words[0] + gaps[0] + words[1] + gaps[1] + ... + words[n - 1] + gaps[n - 1]. */
  function Interleave(words: seq<string>, gaps: seq<string>): string
    requires |gaps| == |words|
  {
    if words == [] then [] else words[0] + gaps[0] + Interleave(words[1..], gaps[1..])
  }

  /** A non-empty separator-free word is a single fragment. */
  lemma FragmentsOfWord(w: string)
    requires |w| > 0 && forall c :: c in w ==> !IsSeparator(c)
    ensures Fragments(w) == [w]
  {

  }

  /** A leading separator yields no fragment. */
  lemma {:induction false} FragmentsAfterSeparator(c: char, s: string)
    requires IsSeparator(c)
    ensures Fragments([c] + s) == Fragments(s)
  {
    assert ([c] + s)[1..] == s;
  }

  /** A leading run of separators yields no fragment. */
  lemma {:induction false} FragmentsAfterSeparators(g: string, s: string)
    requires SeparatorRun(g)
    ensures Fragments(g + s) == Fragments(s)
  {
    if g != [] {
      var t := g[1..] + s;
      assert g + s == [g[0]] + t;
      FragmentsAfterSeparators(g[1..], s);
      FragmentsAfterSeparator(g[0], t);
      assert Fragments([g[0]] + t) == Fragments(t);
    } else {
      assert g + s == s;
    }
  }

  /** A non-empty separator-free word followed by a separator is the first fragment. */
  lemma {:induction false} FragmentsAfterWord(w: string, c: char, rest: string)
    requires |w| > 0 && forall c :: c in w ==> !IsSeparator(c)
    requires IsSeparator(c)
    ensures Fragments(w + [c] + rest) == [w] + Fragments(rest)
  {
    var s := w + [c] + rest;
    forall i | 0 <= i < |w| ensures !IsSeparator(w[i]) { assert w[i] in w; }
    RunLengthAtSeparator(w, c, rest);
    assert s[..|w|] == w;
    assert s[|w| + 1..] == rest;
  }

  /**
   * Words separated by runs of separators, with any separators before the
   * first word and after the last, split back into exactly those words:
   * '.', '_' and '-' all separate, and repeated, leading or trailing
   * separators produce no empty piece.
   */
  lemma {:induction false} FragmentsOfSeparated(lead: string, words: seq<string>, gaps: seq<string>)
    requires |gaps| == |words| && NameWords(words)
    requires SeparatorRun(lead) && forall i :: 0 <= i < |gaps| ==> SeparatorRun(gaps[i])
    requires forall i :: 0 <= i < |gaps| - 1 ==> |gaps[i]| > 0
    ensures Fragments(lead + Interleave(words, gaps)) == words
  {
    FragmentsAfterSeparators(lead, Interleave(words, gaps));
    FragmentsOfInterleave(words, gaps);
  }

  /** The words and gaps of FragmentsOfSeparated without the leading run. */
  lemma {:induction false} FragmentsOfInterleave(words: seq<string>, gaps: seq<string>)
    requires |gaps| == |words| && NameWords(words)
    requires forall i :: 0 <= i < |gaps| ==> SeparatorRun(gaps[i])
    requires forall i :: 0 <= i < |gaps| - 1 ==> |gaps[i]| > 0
    ensures Fragments(Interleave(words, gaps)) == words
    decreases |words|, 1
  {
    if words != [] {
      if gaps[0] == [] {
        FragmentsOfLastWord(words, gaps);
      } else {
        FragmentsOfFirstWord(words, gaps);
      }
    }
  }

  /** With no gap after it, the first word is the last one and the only fragment. */
  lemma {:induction false} FragmentsOfLastWord(words: seq<string>, gaps: seq<string>)
    requires |gaps| == |words| > 0 && NameWords(words)
    requires gaps[0] == [] && forall i :: 0 <= i < |gaps| - 1 ==> |gaps[i]| > 0
    ensures Fragments(Interleave(words, gaps)) == words
  {
    var w := words[0];
    assert words == [w];
    assert Interleave(words, gaps) == w + [] + Interleave([], []);
    assert w + [] + [] == w;
    FragmentsOfWord(w);
  }

  /** A non-empty gap after the first word: that word, then the fragments of the rest. */
  lemma {:induction false} FragmentsOfFirstWord(words: seq<string>, gaps: seq<string>)
    requires |gaps| == |words| > 0 && NameWords(words)
    requires forall i :: 0 <= i < |gaps| ==> SeparatorRun(gaps[i])
    requires forall i :: 0 <= i < |gaps| - 1 ==> |gaps[i]| > 0
    requires gaps[0] != []
    ensures Fragments(Interleave(words, gaps)) == words
    decreases |words|, 0
  {
    var w, g, ws, gs := words[0], gaps[0], words[1..], gaps[1..];
    assert NameWords(ws) by {
      forall i | 0 <= i < |ws| ensures |ws[i]| > 0 && forall c :: c in ws[i] ==> !IsSeparator(c) {
        assert ws[i] == words[i + 1];
      }
    }
    forall i | 0 <= i < |gs| ensures SeparatorRun(gs[i]) { assert gs[i] == gaps[i + 1]; }
    forall i | 0 <= i < |gs| - 1 ensures |gs[i]| > 0 { assert gs[i] == gaps[i + 1]; }
    var rest := Interleave(ws, gs);
    FragmentsOfInterleave(ws, gs);
    FragmentsAfterWordAndGap(w, g, rest);
    assert Interleave(words, gaps) == w + g + rest;
    assert words == [w] + ws;
  }

  /** A word followed by a non-empty run of separators is the first fragment. */
  lemma {:induction false} FragmentsAfterWordAndGap(w: string, g: string, rest: string)
    requires |w| > 0 && forall c :: c in w ==> !IsSeparator(c)
    requires |g| > 0 && SeparatorRun(g)
    ensures Fragments(w + g + rest) == [w] + Fragments(rest)
  {
    var c, tail := g[0], g[1..] + rest;
    assert w + g + rest == w + [c] + tail;
    assert IsSeparator(c);
    assert SeparatorRun(g[1..]) by {
      forall i | 0 <= i < |g[1..]| ensures IsSeparator(g[1..][i]) { assert g[1..][i] == g[i + 1]; }
    }
    FragmentsAfterWord(w, c, tail);
    FragmentsAfterSeparators(g[1..], rest);
  }

  lemma {:induction false} InterleaveWithoutAt(words: seq<string>, gaps: seq<string>)
    requires |gaps| == |words|
    requires forall i :: 0 <= i < |words| ==> '@' !in words[i]
    requires forall i :: 0 <= i < |gaps| ==> SeparatorRun(gaps[i])
    ensures '@' !in Interleave(words, gaps)
  {
    if words != [] {
      InterleaveWithoutAt(words[1..], gaps[1..]);
      assert '@' !in gaps[0] by {
        forall i | 0 <= i < |gaps[0]| ensures gaps[0][i] != '@' { assert IsSeparator(gaps[0][i]); }
      }
    }
  }

  /**
   * The greeting name of an email whose local part is words separated by
   * '.', '_' or '-' (repeated, leading and trailing separators allowed) is
   * "W1 W2 ... Wn": each word capitalized, joined by single spaces.
   */
  lemma NameOfSeparatedEmail(lead: string, words: seq<string>, gaps: seq<string>, domain: string)
    requires |gaps| == |words| && NameWords(words)
    requires forall i :: 0 <= i < |words| ==> '@' !in words[i]
    requires SeparatorRun(lead) && forall i :: 0 <= i < |gaps| ==> SeparatorRun(gaps[i])
    requires forall i :: 0 <= i < |gaps| - 1 ==> |gaps[i]| > 0
    ensures ExtractNameFromEmail(lead + Interleave(words, gaps) + "@" + domain) == JoinWith(' ', CapitalizeAll(words))
  {
    var local := lead + Interleave(words, gaps);
    InterleaveWithoutAt(words, gaps);
    assert '@' !in lead by {
      forall i | 0 <= i < |lead| ensures lead[i] != '@' { assert IsSeparator(lead[i]); }
    }
    LocalPartBeforeAt(local, domain);
    FragmentsOfSeparated(lead, words, gaps);
  }

  /** The name never contains '@' nor any separator. */
  lemma NameHasNoSeparators(email: string)
    ensures forall c :: c in ExtractNameFromEmail(email) ==> c != '@' && !IsSeparator(c)
  {
    if '@' in email {
      var frags := Fragments(LocalPart(email));
      var caps := CapitalizeAll(frags);
      forall i | 0 <= i < |caps|
        ensures forall c :: c in caps[i] ==> c != '@' && !IsSeparator(c)
      {
        forall c | c in caps[i] ensures c != '@' && !IsSeparator(c) {
          var k :| 0 <= k < |caps[i]| && caps[i][k] == c;
          var f := frags[i];
          assert f[k] in f;
        }
      }
      JoinKeeps(caps);
    }
  }

  lemma {:induction false} JoinKeeps(words: seq<string>)
    requires forall i :: 0 <= i < |words| ==> forall c :: c in words[i] ==> c != '@' && !IsSeparator(c)
    ensures forall c :: c in JoinWith(' ', words) ==> c != '@' && !IsSeparator(c)
  {
    if |words| > 1 {
      JoinKeeps(words[1..]);
    }
  }

  // ---------------------------------------------------------------------
  // handlePinClockAction
  // ---------------------------------------------------------------------

  datatype ClockResponse = ClockResponse(
    message: string,
    userEmail: string,
    action: ClockAction,
    timestamp: int,
    hoursWorkedThisSession: real)

  function WelcomeMessage(name: string): string
  {
    "Welcome, " + name + "! Clock-in successful."
  }

  function GoodbyeMessage(name: string): string
  {
    "Goodbye, " + name + "! Clock-out successful."
  }

  /**
   * handlePinClockAction(pin) at time `now`; `freshSessionId` is the random
   * UUID drawn for a new session.
   */
  method HandlePinClockAction(users: UserRepository, clocks: ClockLogRepository, audits: AuditLogRepository,
                              enc: PasswordEncoder, pin: string, now: int, freshSessionId: string)
    returns (r: Result<ClockResponse>)
    requires clocks.Valid() && audits.Valid()
    modifies clocks, audits
    ensures audits.nextId == old(audits.nextId) + |audits.entries| - |old(audits.entries)|
    ensures clocks.nextId == old(clocks.nextId) + |clocks.logs| - |old(clocks.logs)|
    ensures clocks.Valid() && audits.Valid()
    // no employee matches: one failure audit without a user, nothing saved
    ensures MatchEmployee(users.users, enc, pin).None? ==>
      && r == Err(AuthenticationFailure("Invalid PIN provided."))
      && clocks.logs == old(clocks.logs) && clocks.nextId == old(clocks.nextId)
      && audits.entries == old(audits.entries) + [AuditLog(old(audits.nextId), None, "PIN_LOGIN_FAILURE", "FAILURE", None, now,
                                                             "Failed PIN login attempt. No matching user found.")]
    // the first matching employee: exactly one new log, per the state machine
    ensures MatchEmployee(users.users, enc, pin).Some? ==>
      && r.Ok?
      && KioskActionRecorded(MatchEmployee(users.users, enc, pin).value, now, freshSessionId, r.value,
                             old(clocks.logs), old(clocks.nextId), clocks.logs, old(audits.entries), old(audits.nextId), audits.entries)
    // every user's history stays well formed when the clock does not run backwards
    ensures MatchEmployee(users.users, enc, pin).Some? && old(HistoriesWellFormed(clocks.logs))
            && ClockNotBehind(old(clocks.logs), MatchEmployee(users.users, enc, pin).value.id, now)
            ==> HistoriesWellFormed(clocks.logs)
  {
    var matched := MatchEmployee(users.users, enc, pin);
    if matched.None? {
      AuditService.Log(audits, now, None, "PIN_LOGIN_FAILURE", "FAILURE", "Failed PIN login attempt. No matching user found.");
      return Err(AuthenticationFailure("Invalid PIN provided."));
    }
    var response := RecordKioskAction(clocks, audits, matched.value, now, freshSessionId);
    r := Ok(response);
  }

  /**
   * What one kiosk action of `e` writes and answers: exactly one new log,
   * per the state machine, and one audit entry. With no latest log or a
   * CLOCK_OUT latest log it is a CLOCK_IN with a fresh session and no
   * duration; after a CLOCK_IN it is a CLOCK_OUT of the same session
   * carrying the elapsed whole minutes in hours.
   */
  ghost predicate KioskActionRecorded(e: User, now: int, freshSessionId: string, response: ClockResponse,
                                      logsBefore: seq<ClockLog>, nextLogId: int, logsAfter: seq<ClockLog>,
                                      entriesBefore: seq<AuditLog>, nextEntryId: int, entriesAfter: seq<AuditLog>)
  {
    var latest := LatestLog(logsBefore, e.id);
    var log := NextClockLog(latest, e, now, freshSessionId).(id := nextLogId);
    var name := ExtractNameFromEmail(e.email);
    && logsAfter == logsBefore + [log]
    && log.owner == OwnerOf(e) && log.timestamp == now
    && (if latest.None? || latest.value.action == ClockOut then
          && log.action == ClockIn && log.sessionId == Some(freshSessionId) && log.durationHours == None
          && response == ClockResponse(WelcomeMessage(name), e.email, ClockIn, now, 0.0)
          && entriesAfter == entriesBefore + [AuditLog(nextEntryId, Some(e.id), "CLOCK_IN_SUCCESS", "SUCCESS", None, now,
                                                       "User clocked in via PIN-only kiosk.")]
        else
          var hours := HoursOf(WholeMinutes(latest.value.timestamp, now));
          && log.action == ClockOut && log.sessionId == latest.value.sessionId && log.durationHours == Some(hours)
          && (latest.value.timestamp <= now ==> hours >= 0.0)
          && response == ClockResponse(GoodbyeMessage(name), e.email, ClockOut, now, hours)
          && entriesAfter == entriesBefore + [AuditLog(nextEntryId, Some(e.id), "CLOCK_OUT_SUCCESS", "SUCCESS", None, now,
                                                       "User clocked out. Hours worked: " + FormatTwoDecimals(hours))])
  }

  /** The part of handlePinClockAction after an employee matched: the new log, its audit and the response. */
  method RecordKioskAction(clocks: ClockLogRepository, audits: AuditLogRepository,
                           employee: User, now: int, freshSessionId: string)
    returns (response: ClockResponse)
    requires clocks.Valid() && audits.Valid()
    modifies clocks, audits
    ensures clocks.Valid() && audits.Valid()
    ensures clocks.nextId == old(clocks.nextId) + 1 && audits.nextId == old(audits.nextId) + 1
    ensures KioskActionRecorded(employee, now, freshSessionId, response,
                                old(clocks.logs), old(clocks.nextId), clocks.logs, old(audits.entries), old(audits.nextId), audits.entries)
    ensures old(HistoriesWellFormed(clocks.logs)) && ClockNotBehind(old(clocks.logs), employee.id, now)
            ==> HistoriesWellFormed(clocks.logs)
  {
    var lastLog := LatestLog(clocks.logs, employee.id);

    // a new entity: owner and timestamp first, the rest per the state machine
    var newLog := ClockLog(0, OwnerOf(employee), ClockIn, now, None, None);
    var message: string;
    var hoursWorked := 0.0;
    var employeeName := ExtractNameFromEmail(employee.email);

    if lastLog.None? || lastLog.value.action == ClockOut {
      newLog := newLog.(action := ClockIn, sessionId := Some(freshSessionId));
      message := WelcomeMessage(employeeName);
      AuditService.Log(audits, now, Some(employee.id), "CLOCK_IN_SUCCESS", "SUCCESS", "User clocked in via PIN-only kiosk.");
    } else {
      var lastClockIn := lastLog.value;
      newLog := newLog.(action := ClockOut, sessionId := lastClockIn.sessionId);
      var totalMinutes := WholeMinutes(lastClockIn.timestamp, newLog.timestamp);
      hoursWorked := HoursOf(totalMinutes);
      newLog := newLog.(durationHours := Some(hoursWorked));
      message := GoodbyeMessage(employeeName);
      AuditService.Log(audits, now, Some(employee.id), "CLOCK_OUT_SUCCESS", "SUCCESS",
                       "User clocked out. Hours worked: " + FormatTwoDecimals(hoursWorked));
    }

    assert newLog == NextClockLog(lastLog, employee, now, freshSessionId);
    ghost var before := clocks.logs;
    var saved := clocks.Save(newLog);
    if HistoriesWellFormed(before) && ClockNotBehind(before, employee.id, now) {
      KioskPreservesHistories(before, employee, now, freshSessionId, saved.id);
    }
    response := ClockResponse(message, employee.email, saved.action, saved.timestamp, hoursWorked);
  }

  // ---------------------------------------------------------------------
  // handleAdminLogin
  // ---------------------------------------------------------------------

  /** What a successful admin login returns besides the signed token. */
  datatype LoginResponse = LoginResponse(email: string, role: Role)

  /**
   * The authentication manager: the user with that email, provided the
   * password matches its stored hash.
   */
  function Authenticate(users: seq<User>, enc: PasswordEncoder, email: string, password: string): (r: Option<User>)
    ensures r.Some? ==> r.value in users && r.value.email == email && enc.matches(password, r.value.password)
  {
    match FindByEmail(users, email)
    case None => None
    case Some(u) => if enc.matches(password, u.password) then Some(u) else None
  }

  /** With unique emails, authentication fails exactly when no user with that email has a matching hash. */
  lemma AuthenticateFailsIffNoMatch(users: seq<User>, enc: PasswordEncoder, email: string, password: string)
    requires EmailsDistinct(users)
    ensures Authenticate(users, enc, email, password).None? <==>
            forall u :: u in users && u.email == email ==> !enc.matches(password, u.password)
  {

  }

  /** handleAdminLogin(email, password) at time `now`. */
  method HandleAdminLogin(users: UserRepository, audits: AuditLogRepository, enc: PasswordEncoder,
                          email: string, password: string, now: int)
    returns (r: Result<LoginResponse>)
    requires audits.Valid()
    modifies audits
    ensures audits.nextId == old(audits.nextId) + |audits.entries| - |old(audits.entries)|
    ensures audits.Valid()
    ensures Authenticate(users.users, enc, email, password).None? ==>
      && r == Err(AuthenticationFailure("Bad credentials"))
      && audits.entries == old(audits.entries) + [AuditLog(old(audits.nextId), None, "ADMIN_LOGIN_FAILURE", "FAILURE", None, now,
                                                             "Failed admin login attempt for email: " + email)]
    ensures Authenticate(users.users, enc, email, password).Some? ==>
      var u := Authenticate(users.users, enc, email, password).value;
      if u.role != RoleAdmin then
        && r == Err(IllegalState("Access denied. Not an administrator."))
        && audits.entries == old(audits.entries) + [AuditLog(old(audits.nextId), Some(u.id), "ADMIN_LOGIN_FAILURE", "FAILURE", None, now,
                                                               "Non-admin user attempted to log into admin portal.")]
      else
        && r == Ok(LoginResponse(u.email, u.role))
        && audits.entries == old(audits.entries) + [AuditLog(old(audits.nextId), Some(u.id), "ADMIN_LOGIN_SUCCESS", "SUCCESS", None, now,
                                                               "Admin successfully logged in.")]
  {
    var authenticated := Authenticate(users.users, enc, email, password);
    if authenticated.None? {
      AuditService.Log(audits, now, None, "ADMIN_LOGIN_FAILURE", "FAILURE", "Failed admin login attempt for email: " + email);
      return Err(AuthenticationFailure("Bad credentials"));
    }
    var user := authenticated.value;
    if user.role != RoleAdmin {
      AuditService.Log(audits, now, Some(user.id), "ADMIN_LOGIN_FAILURE", "FAILURE", "Non-admin user attempted to log into admin portal.");
      return Err(IllegalState("Access denied. Not an administrator."));
    }
    AuditService.Log(audits, now, Some(user.id), "ADMIN_LOGIN_SUCCESS", "SUCCESS", "Admin successfully logged in.");
    r := Ok(LoginResponse(user.email, user.role));
  }
}
