/** The recipient lists of a message, their index `all_recipients`, and the SMTP
    transaction that relies on the index (`smtpSend`). */
module Recipients {
  import opened Strings
  import opened Smtp
  import opened Wrappers

  datatype Kind = To | Cc | Bcc | ReplyTo | OtherKind(name: string)
  datatype Address = Address(address: string, name: string)

  /** The recipient fields of the mailer. */
  datatype Lists = Lists(to: seq<Address>, cc: seq<Address>, bcc: seq<Address>,
                         all: set<string>, replyTo: map<string, Address>)

  const EMPTY: Lists := Lists([], [], [], {}, map[])

  function Keys(list: seq<Address>): (r: seq<string>)
    ensures |r| == |list|
  {
    seq(|list|, i requires 0 <= i < |list| => ToLower(list[i].address))
  }

  function Elements(s: seq<string>): set<string> {
    set x | x in s
  }

  /** The lower-cased addresses of the three lists. */
  function AllKeys(l: Lists): seq<string> {
    Keys(l.to) + Keys(l.cc) + Keys(l.bcc)
  }

  predicate NoDuplicates(s: seq<string>) {
    forall i, j :: 0 <= i < j < |s| ==> s[i] != s[j]
  }

  /** The index holds exactly the addresses of the lists, each of which occurs
      once across the three. */
  predicate IndexIsExact(l: Lists) {
    l.all == Elements(AllKeys(l)) && NoDuplicates(AllKeys(l))
  }

  // ---- what the operations do ----------------------------------------------

  function Add(l: Lists, kind: Kind, address: string, name: string, valid: bool): (Lists, bool) {
    var key := ToLower(address);
    var entry := Address(address, name);
    if kind.OtherKind? || !valid then (l, false)
    else if kind.ReplyTo? then
      if key in l.replyTo then (l, false) else (l.(replyTo := l.replyTo[key := entry]), true)
    else if key in l.all then (l, false)
    else
      var l1 := l.(all := l.all + {key});
      match kind
      case To => (l1.(to := l.to + [entry]), true)
      case Cc => (l1.(cc := l.cc + [entry]), true)
      case _ => (l1.(bcc := l.bcc + [entry]), true)
  }

  /** Clearing one list takes its addresses out of the index, one by one. */
  function Clear(l: Lists, kind: Kind): Lists {
    match kind
    case To => l.(to := [], all := l.all - Elements(Keys(l.to)))
    case Cc => l.(cc := [], all := l.all - Elements(Keys(l.cc)))
    case Bcc => l.(bcc := [], all := l.all - Elements(Keys(l.bcc)))
    case ReplyTo => l.(replyTo := map[])
    case OtherKind(_) => l
  }

  function ClearAll(l: Lists): Lists {
    EMPTY.(replyTo := l.replyTo)
  }

  datatype Op = AddOp(kind: Kind, address: string, name: string, valid: bool) | ClearOp(kind: Kind) | ClearAllOp

  function Step(l: Lists, op: Op): Lists {
    match op
    case AddOp(kind, address, name, valid) => Add(l, kind, address, name, valid).0
    case ClearOp(kind) => Clear(l, kind)
    case ClearAllOp => ClearAll(l)
  }

  function Run(l: Lists, ops: seq<Op>): Lists
    decreases |ops|
  {
    if ops == [] then l else Run(Step(l, ops[0]), ops[1..])
  }

  /** The list of a kind that has one. */
  function ListOf(l: Lists, kind: Kind): seq<Address> {
    match kind
    case To => l.to
    case Cc => l.cc
    case Bcc => l.bcc
    case _ => []
  }

  /** An address goes to the end of the list of its kind, and nowhere else, when it
      is valid and in none of the three lists; as a reply-to it must only not be
      one already. */
  lemma WhereAddressGoes(l: Lists, kind: Kind, address: string, name: string, valid: bool)
    requires IndexIsExact(l)
    ensures var (l1, ok) := Add(l, kind, address, name, valid);
      && (kind.To? || kind.Cc? || kind.Bcc? ==>
           (ok <==> valid && forall a :: a in l.to + l.cc + l.bcc ==> ToLower(a.address) != ToLower(address)))
      && (kind.ReplyTo? ==> (ok <==> valid && ToLower(address) !in l.replyTo))
      && (kind.OtherKind? ==> !ok)
      && (!ok ==> l1 == l)
      && (ok && !kind.ReplyTo? ==> ListOf(l1, kind) == ListOf(l, kind) + [Address(address, name)])
      && (forall other :: other != kind ==> ListOf(l1, other) == ListOf(l, other))
      && l1.replyTo == (if ok && kind.ReplyTo? then l.replyTo[ToLower(address) := Address(address, name)]
        else l.replyTo)
  {
    KeysOfThree(l);
    KeyIsListed(l.to + l.cc + l.bcc, ToLower(address));
  }

  lemma KeysOfThree(l: Lists)
    ensures Keys(l.to + l.cc + l.bcc) == AllKeys(l)
  {
  }

  lemma KeyIsListed(list: seq<Address>, key: string)
    ensures key in Elements(Keys(list)) <==> exists a :: a in list && ToLower(a.address) == key
  {
    if key in Elements(Keys(list)) {
      var i :| 0 <= i < |list| && Keys(list)[i] == key;
      assert list[i] in list;
    }
    if exists a :: a in list && ToLower(a.address) == key {
      var i :| 0 <= i < |list| && ToLower(list[i].address) == key;
      assert Keys(list)[i] == key;
    }
  }

  /** Clearing a list empties it and changes no other. */
  lemma WhatIsCleared(l: Lists, kind: Kind)
    ensures var l1 := Clear(l, kind);
      && ListOf(l1, kind) == [] && (forall other :: other != kind ==> ListOf(l1, other) == ListOf(l, other))
      && l1.replyTo == if kind.ReplyTo? then map[] else l.replyTo
    ensures var l1 := ClearAll(l); l1.to == l1.cc == l1.bcc == [] && l1.replyTo == l.replyTo
  {
  }

  // ---- the index stays exact -------------------------------------------------

  lemma AddKeepsIndex(l: Lists, kind: Kind, address: string, name: string, valid: bool)
    requires IndexIsExact(l)
    ensures IndexIsExact(Add(l, kind, address, name, valid).0)
  {
    var l1 := Add(l, kind, address, name, valid).0;
    var key := ToLower(address);
    if l1.all != l.all {
      var a, b, c := Keys(l.to), Keys(l.cc), Keys(l.bcc);
      assert key !in AllKeys(l);
      match kind
      case To =>
        assert Keys(l1.to) == a + [key];
        assert AllKeys(l) == a + (b + c);
        InsertKey(a, key, b + c);
        assert AllKeys(l1) == a + [key] + (b + c);
      case Cc =>
        assert Keys(l1.cc) == b + [key];
        InsertKey(a + b, key, c);
        assert AllKeys(l1) == (a + b) + [key] + c;
      case Bcc =>
        assert Keys(l1.bcc) == c + [key];
        assert AllKeys(l) == (a + b + c) + [];
        InsertKey(a + b + c, key, []);
        assert AllKeys(l1) == (a + b + c) + [key] + [];
    }
  }

  lemma InsertKey(a: seq<string>, key: string, b: seq<string>)
    requires NoDuplicates(a + b) && key !in a + b
    ensures NoDuplicates(a + [key] + b) && Elements(a + [key] + b) == Elements(a + b) + {key}
  {
    var s, t := a + b, a + [key] + b;
    forall i, j | 0 <= i < j < |t| ensures t[i] != t[j] {
      var i', j' := if i < |a| then i else i - 1, if j < |a| then j else j - 1;
      assert i < |a| ==> t[i] == s[i'];
      assert i > |a| ==> t[i] == s[i'];
      assert j < |a| ==> t[j] == s[j'];
      assert j > |a| ==> t[j] == s[j'];
      assert i == |a| ==> t[j] in s;
      assert j == |a| ==> t[i] in s;
    }
    assert forall x :: x in t <==> x in s || x == key;
  }

  /** Taking one list's addresses out leaves the addresses of the others. */
  lemma RemoveKeys(a: seq<string>, b: seq<string>, c: seq<string>)
    requires NoDuplicates(a + b + c)
    ensures NoDuplicates(a + c) && Elements(a + b + c) - Elements(b) == Elements(a + c)
  {
    var s, t := a + b + c, a + c;
    forall i, j | 0 <= i < j < |t| ensures t[i] != t[j] {
      assert t[i] == s[if i < |a| then i else i + |b|];
      assert t[j] == s[if j < |a| then j else j + |b|];
    }
    forall x | x in t ensures x !in b {
      var i :| 0 <= i < |t| && t[i] == x;
      var k := if i < |a| then i else i + |b|;
      assert s[k] == x;
      forall j | 0 <= j < |b| ensures b[j] != x {
        assert s[|a| + j] == b[j];
      }
    }
    assert forall x :: x in s <==> x in t || x in b;
  }

  lemma ClearKeepsIndex(l: Lists, kind: Kind)
    requires IndexIsExact(l)
    ensures IndexIsExact(Clear(l, kind))
  {
    var a, b, c := Keys(l.to), Keys(l.cc), Keys(l.bcc);
    match kind
    case To =>
      assert AllKeys(l) == [] + a + (b + c) && AllKeys(Clear(l, kind)) == [] + (b + c);
      RemoveKeys([], a, b + c);
    case Cc =>
      assert AllKeys(Clear(l, kind)) == a + c;
      RemoveKeys(a, b, c);
    case Bcc =>
      assert AllKeys(l) == (a + b) + c + [] && AllKeys(Clear(l, kind)) == (a + b) + [];
      RemoveKeys(a + b, c, []);
    case _ =>
  }

  /** Over every run of additions and clearings, starting from a new mailer. */
  lemma {:induction false} IndexIsExactOverRuns(l: Lists, ops: seq<Op>)
    requires IndexIsExact(l)
    ensures IndexIsExact(Run(l, ops))
    decreases |ops|
  {
    if ops != [] {
      match ops[0] {
        case AddOp(kind, address, name, valid) => AddKeepsIndex(l, kind, address, name, valid);
        case ClearOp(kind) => ClearKeepsIndex(l, kind);
        case ClearAllOp => assert AllKeys(ClearAll(l)) == [];
      }
      IndexIsExactOverRuns(Step(l, ops[0]), ops[1..]);
    }
  }

  lemma NewMailerIsExact(ops: seq<Op>)
    ensures IndexIsExact(Run(EMPTY, ops))
  {
    assert AllKeys(EMPTY) == [];
    IndexIsExactOverRuns(EMPTY, ops);
  }

  lemma {:induction false} CountWithoutDuplicates(s: seq<string>)
    requires NoDuplicates(s)
    ensures |Elements(s)| == |s|
    decreases |s|
  {
    if s != [] {
      var n := |s| - 1;
      CountWithoutDuplicates(s[..n]);
      assert Elements(s) == Elements(s[..n]) + {s[n]};
      assert s[n] !in Elements(s[..n]);
    } else {
      assert Elements(s) == {};
    }
  }

  /** The index counts the entries of the lists. */
  lemma IndexCounts(l: Lists)
    requires IndexIsExact(l)
    ensures |l.all| == |l.to| + |l.cc| + |l.bcc|
  {
    CountWithoutDuplicates(AllKeys(l));
  }

  /** The comparison finds out whether anyone was accepted. */
  predicate CountTestWorks(index: nat, entries: nat, bad: nat) {
    index > bad <==> entries > bad
  }

  /** It does so for every number of rejections exactly when the index counts
      the entries. */
  lemma CountTestNeedsIndex(index: nat, entries: nat)
    ensures (forall bad: nat :: bad <= entries ==> CountTestWorks(index, entries, bad)) <==> index == entries
  {
    if forall bad: nat :: bad <= entries ==> CountTestWorks(index, entries, bad) {
      assert CountTestWorks(index, entries, entries);
      assert index <= entries ==> CountTestWorks(index, entries, index);
    }
  }

  // ---- the transaction -----------------------------------------------------

  /** RCPT for each address in turn, and which ones the server accepted. */
  function Offer(s: Conn, list: seq<Address>): (r: (Conn, seq<bool>))
    ensures |r.1| == |list|
  {
    if list == [] then (s, [])
    else
      var n := |list| - 1;
      var (s1, accepted) := Offer(s, list[..n]);
      var (s2, ok) := Issue(s1, RcptCommand(list[n].address), {"250", "251"});
      (s2, accepted + [ok])
  }

  lemma {:induction false} OfferAppend(s: Conn, a: seq<Address>, b: seq<Address>)
    ensures Offer(s, a + b) == (Offer(Offer(s, a).0, b).0, Offer(s, a).1 + Offer(Offer(s, a).0, b).1)
    decreases |b|
  {
    if b == [] {
      assert a + b == a && Offer(s, a).1 + [] == Offer(s, a).1;
    } else {
      var n := |b| - 1;
      assert (a + b)[..|a + b| - 1] == a + b[..n] && (a + b)[|a + b| - 1] == b[n];
      OfferAppend(s, a, b[..n]);
      var (s1, x) := Offer(s, a);
      var (s2, y) := Offer(s1, b[..n]);
      var (s3, ok) := Issue(s2, RcptCommand(b[n].address), {"250", "251"});
      assert (x + y) + [ok] == x + (y + [ok]);
    }
  }

  function Rejections(accepted: seq<bool>): (n: nat)
    ensures n <= |accepted|
    ensures n < |accepted| <==> true in accepted
  {
    if accepted == [] then 0
    else
      var m := |accepted| - 1;
      assert accepted == accepted[..m] + [accepted[m]];
      Rejections(accepted[..m]) + (if accepted[m] then 0 else 1)
  }

  datatype Outcome = Delivered | SomeRejected(bad: nat) | DataRejected | FromRejected | NoConnection

  /** The transaction once the server has accepted the sender. The message is
      sent when at least one recipient was accepted. */
  function Deliver(s: Conn, recipients: seq<Address>, msg: string, keepAlive: bool): (Conn, Outcome) {
    var (s1, accepted) := Offer(s, recipients);
    var (s2, ok) := if true in accepted then Transmit(s1, msg) else (s1, true);
    if !ok then (s2, DataRejected)
    else
      var s3 := if keepAlive then Issue(s2, "RSET", {"250"}).0 else Issue(s2, "QUIT", {"221"}).0.(connected := false);
      (s3, if false in accepted then SomeRejected(Rejections(accepted)) else Delivered)
  }

  lemma {:induction false} NoRejections(accepted: seq<bool>)
    ensures Rejections(accepted) == 0 <==> false !in accepted
  {
    if accepted != [] {
      var m := |accepted| - 1;
      assert accepted == accepted[..m] + [accepted[m]];
      NoRejections(accepted[..m]);
    }
  }

  lemma {:induction false} AcceptedMeansConnected(s: Conn, list: seq<Address>)
    ensures Offer(s, list).0.connected == s.connected && (true in Offer(s, list).1 ==> s.connected)
  {
    if list != [] { AcceptedMeansConnected(s, list[..|list| - 1]); }
  }

  /** What the server sees next after the recipients: DATA exactly when it has
      accepted one of them, whatever its replies were. */
  lemma DataIffAccepted(s: Conn, recipients: seq<Address>, msg: string, keepAlive: bool)
    ensures var (s1, accepted) := Offer(s, recipients);
      var wire := Deliver(s, recipients, msg, keepAlive).0.wire;
      var n := |s1.wire|;
      && n <= |wire| && wire[..n] == s1.wire
      && (true in accepted <==> wire[n..] != "" && "DATA" + CRLF <= wire[n..])
  {
    var (s1, accepted) := Offer(s, recipients);
    AcceptedMeansConnected(s, recipients);
    if true in accepted {
      TransmitStarts(s1, msg);
      GrowsWire(Transmit(s1, msg).0);
      StartsAfter(s1.wire, "DATA" + CRLF, Transmit(s1, msg).0.wire, Deliver(s, recipients, msg, keepAlive).0.wire);
    } else {
      NotData(s1, keepAlive);
    }
  }

  lemma GrowsWire(s: Conn)
    ensures s.wire <= Issue(s, "RSET", {"250"}).0.wire && s.wire <= Issue(s, "QUIT", {"221"}).0.wire
  {
  }

  lemma StartsAfter(a: string, b: string, w: string, wire: string)
    requires a + b <= w <= wire
    ensures |a| <= |wire| && wire[..|a|] == a && b <= wire[|a|..]
  {
    assert a + b <= wire;
    assert wire[|a|..][..|b|] == (a + b)[|a|..];
  }

  lemma NotData(s: Conn, keepAlive: bool)
    ensures var wire := (if keepAlive then Issue(s, "RSET", {"250"}) else Issue(s, "QUIT", {"221"})).0.wire;
      s.wire <= wire && !("DATA" + CRLF <= wire[|s.wire|..])
  {
    var w := (if keepAlive then "RSET" else "QUIT") + CRLF;
    assert w[0] != ("DATA" + CRLF)[0];
    assert (s.wire + w)[|s.wire|..] == w && s.wire[|s.wire|..] == "";
  }

  lemma TransmitStarts(s: Conn, msg: string)
    requires s.connected
    ensures s.wire + ("DATA" + CRLF) <= Transmit(s, msg).0.wire
  {
    assert BreakFree("DATA") && BreakFree(".");
  }

  // ---- the outcome, by the replies -----------------------------------------------

  /** Whether a command goes out for the address; one with a line break does not. */
  predicate IsAsked(a: Address) {
    BreakFree(RcptCommand(a.address))
  }

  /** How many commands go out for the first `n` recipients. */
  function Asked(recipients: seq<Address>, n: nat): (k: nat)
    requires n <= |recipients|
    ensures k <= n
  {
    if n == 0 then 0 else Asked(recipients, n - 1) + (if IsAsked(recipients[n - 1]) then 1 else 0)
  }

  /** MAIL by the text of the reply. */
  lemma MailBy(s: Conn, from: string, verp: bool)
    ensures Issue(s, MailCommand(from, verp), {"250"}).1 <==>
      s.connected && BreakFree(MailCommand(from, verp)) && "250" <= NextReply(s)
  {
    if s.connected && BreakFree(MailCommand(from, verp)) { IssuedByOne(s, MailCommand(from, verp), "250"); }
  }

  /** The sender of the transaction. */
  function Envelope(sender: string, from: string, isValid: string -> bool): (r: string)
    ensures sender == "" || sender == "0" || !isValid(sender) ==> r == from
    ensures sender != "" && sender != "0" && isValid(sender) ==> r == sender
  {
    if sender == "" || sender == "0" || !isValid(sender) then from else sender
  }

  /** The sender a server reads from a command. */
  function SenderIn(command: string, verp: bool): Option<string> {
    var start, end := "MAIL FROM:<", if verp then "> XVERP" else ">";
    if |command| >= |start| + |end| && start <= command && EndsWith(command, end)
    then Some(command[|start|..|command| - |end|]) else None
  }

  lemma SenderIsRead(from: string, verp: bool)
    ensures SenderIn(MailCommand(from, verp), verp) == Some(from)
  {
    var command, end := MailCommand(from, verp), if verp then "> XVERP" else ">";
    assert command == "MAIL FROM:<" + from + end;
    assert command[..11] == "MAIL FROM:<" && command[11..|command| - |end|] == from;
  }

  function ReplyAt(s: Conn, k: nat): string {
    if k < |s.replies| then s.replies[k] else ""
  }

  /** The server's answer to the command for recipient `i` is a 250 or a 251. */
  predicate IsAcceptedBy(s: Conn, recipients: seq<Address>, i: nat)
    requires i < |recipients|
  {
    && s.connected && IsAsked(recipients[i])
    && var reply := ReplyAt(s, Asked(recipients, i)); "250" <= reply || "251" <= reply
  }

  /** The answers to DATA and to the lone dot, which come next. */
  predicate IsDataAccepted(s: Conn, recipients: seq<Address>) {
    var k := Asked(recipients, |recipients|);
    "354" <= ReplyAt(s, k) && "250" <= ReplyAt(s, k + 1)
  }

  function Refused(s: Conn, recipients: seq<Address>): set<nat> {
    set i: nat | i < |recipients| && !IsAcceptedBy(s, recipients, i)
  }

  function Dropped(replies: seq<string>, k: nat): seq<string> {
    if k < |replies| then replies[k..] else []
  }

  lemma IssueRcpt(s: Conn, a: Address)
    ensures var (t, ok) := Issue(s, RcptCommand(a.address), {"250", "251"});
      && t.connected == s.connected && s.wire <= t.wire
      && t.replies == (if s.connected && IsAsked(a) then Dropped(s.replies, 1) else s.replies)
      && (ok <==> s.connected && IsAsked(a) && ("250" <= NextReply(s) || "251" <= NextReply(s)))
  {
    if s.connected && IsAsked(a) {
      IssuedBy(s, RcptCommand(a.address), {"250", "251"});
      assert "250" in {"250", "251"} && "251" in {"250", "251"};
    }
  }

  lemma DroppedNext(replies: seq<string>, k: nat)
    ensures Dropped(Dropped(replies, k), 1) == Dropped(replies, k + 1)
    ensures (if Dropped(replies, k) == [] then "" else Dropped(replies, k)[0]) == if k < |replies| then replies[k]
      else ""
  {
  }

  /** The first `n` recipients have been offered. */
  ghost predicate AreOffered(s: Conn, recipients: seq<Address>, n: nat)
    requires n <= |recipients|
  {
    var (t, accepted) := Offer(s, recipients[..n]);
    && t.connected == s.connected
    && t.replies == (if s.connected then Dropped(s.replies, Asked(recipients, n)) else s.replies)
    && forall i :: 0 <= i < n ==> (accepted[i] <==> IsAcceptedBy(s, recipients, i))
  }

  lemma OfferNext(s: Conn, recipients: seq<Address>, n: nat)
    requires n < |recipients|
    ensures var (t, accepted) := Offer(s, recipients[..n]);
      var (u, ok) := Issue(t, RcptCommand(recipients[n].address), {"250", "251"});
      Offer(s, recipients[..n + 1]) == (u, accepted + [ok])
  {
    assert recipients[..n + 1][..n] == recipients[..n];
  }

  lemma AnswerTo(s: Conn, t: Conn, recipients: seq<Address>, n: nat)
    requires n < |recipients| && t.connected == s.connected
    requires t.replies == if s.connected then Dropped(s.replies, Asked(recipients, n)) else s.replies
    ensures var (u, ok) := Issue(t, RcptCommand(recipients[n].address), {"250", "251"});
      && u.connected == s.connected && (ok <==> IsAcceptedBy(s, recipients, n))
      && u.replies == if s.connected then Dropped(s.replies, Asked(recipients, n + 1)) else s.replies
  {
    IssueRcpt(t, recipients[n]);
    DroppedNext(s.replies, Asked(recipients, n));
  }

  lemma OneMoreOffered(s: Conn, recipients: seq<Address>, n: nat)
    requires n < |recipients| && AreOffered(s, recipients, n)
    ensures AreOffered(s, recipients, n + 1)
  {
    var (t, accepted) := Offer(s, recipients[..n]);
    OfferNext(s, recipients, n);
    AnswerTo(s, t, recipients, n);
    var ok := Issue(t, RcptCommand(recipients[n].address), {"250", "251"}).1;
    forall i | 0 <= i < n + 1 ensures (accepted + [ok])[i] <==> IsAcceptedBy(s, recipients, i) {
      if i < n { assert (accepted + [ok])[i] == accepted[i]; }
    }
  }

  /** Who is accepted, and where the conversation is after the recipients. */
  lemma OfferedBy(s: Conn, recipients: seq<Address>)
    ensures var (t, accepted) := Offer(s, recipients);
      && t.connected == s.connected
      && t.replies == (if s.connected then Dropped(s.replies, Asked(recipients, |recipients|)) else s.replies)
      && forall i :: 0 <= i < |recipients| ==> (accepted[i] <==> IsAcceptedBy(s, recipients, i))
  {
    assert recipients[..0] == [];
    for n := 0 to |recipients|
      invariant AreOffered(s, recipients, n)
    {
      OneMoreOffered(s, recipients, n);
    }
    assert recipients[..|recipients|] == recipients;
  }

  function RefusedIn(accepted: seq<bool>): set<nat> {
    set i: nat | i < |accepted| && !accepted[i]
  }

  lemma {:induction false} RejectionsAreRefused(accepted: seq<bool>)
    ensures Rejections(accepted) == |RefusedIn(accepted)|
  {
    if accepted == [] {
      assert RefusedIn(accepted) == {};
    } else {
      var m: nat := |accepted| - 1;
      RejectionsAreRefused(accepted[..m]);
      assert RefusedIn(accepted) == RefusedIn(accepted[..m]) + (if accepted[m] then {} else {m});
      assert m !in RefusedIn(accepted[..m]);
    }
  }

  lemma WhoIsRefused(s: Conn, recipients: seq<Address>)
    ensures var accepted := Offer(s, recipients).1;
      && Rejections(accepted) == |Refused(s, recipients)|
      && (true in accepted <==> |Refused(s, recipients)| < |recipients|)
      && (false in accepted <==> |Refused(s, recipients)| > 0)
  {
    var accepted := Offer(s, recipients).1;
    OfferedBy(s, recipients);
    RejectionsAreRefused(accepted);
    NoRejections(accepted);
    assert Refused(s, recipients) == RefusedIn(accepted);
  }

  lemma DataBy(s: Conn, recipients: seq<Address>, msg: string)
    requires s.connected
    ensures var (t, ok) := Transmit(Offer(s, recipients).0, msg); t.connected && (ok <==> IsDataAccepted(s, recipients))
  {
    OfferedBy(s, recipients);
    var s1, k := Offer(s, recipients).0, Asked(recipients, |recipients|);
    DroppedNext(s.replies, k);
    DroppedNext(s.replies, k + 1);
    if "354" <= NextReply(s1) {
      TransmitIsReceived(s1, msg, "");
    } else {
      TransmitIsRefused(s1, msg);
    }
  }

  /** The last command: RSET on a connection that is kept, QUIT on one that is
      closed. */
  lemma EndsBy(s: Conn, keepAlive: bool)
    requires s.connected
    ensures var t := if keepAlive then Issue(s, "RSET", {"250"}).0
      else Issue(s, "QUIT", {"221"}).0.(connected := false);
      t.connected == keepAlive && t.wire == s.wire + ((if keepAlive then "RSET" else "QUIT") + CRLF)
  {
    assert BreakFree("RSET") && BreakFree("QUIT");
  }

  /** The outcome of the transaction by the replies of the server. The message is
      delivered only if every recipient was accepted, and some were rejected
      exactly when the data phase, where there was one, succeeded for the others.
      The connection is closed, by QUIT, unless it is to be kept alive or the data
      phase failed. */
  lemma OutcomeByReplies(s: Conn, recipients: seq<Address>, msg: string, keepAlive: bool)
    requires s.connected
    ensures var (t, outcome) := Deliver(s, recipients, msg, keepAlive);
      var bad, all, data := |Refused(s, recipients)|, |recipients|, IsDataAccepted(s, recipients);
      && (outcome.Delivered? <==> bad == 0 && (all > 0 ==> data))
      && (forall n :: outcome == SomeRejected(n) <==> n == bad > 0 && (bad < all ==> data))
      && (outcome.DataRejected? <==> bad < all && !data)
      && (t.connected <==> keepAlive || (bad < all && !data))
      && (outcome.DataRejected? || EndsWith(t.wire, (if keepAlive then "RSET" else "QUIT") + CRLF))
  {
    WhoIsRefused(s, recipients);
    OfferedBy(s, recipients);
    DataBy(s, recipients, msg);
    RefusedBound(s, recipients);
    var (s1, accepted) := Offer(s, recipients);
    var (s2, ok) := if true in accepted then Transmit(s1, msg) else (s1, true);
    if ok {
      EndsBy(s2, keepAlive);
    }
  }

  predicate EndsWith(s: string, tail: string) {
    |tail| <= |s| && s[|s| - |tail|..] == tail
  }

  /** The address a server reads from a command. */
  function AddressIn(command: string): Option<string> {
    var start := "RCPT TO:<";
    if |command| > |start| && start <= command && command[|command| - 1] == '>'
    then Some(command[|start|..|command| - 1]) else None
  }

  lemma AddressIsRead(address: string)
    ensures AddressIn(RcptCommand(address)) == Some(address)
  {
    var command := RcptCommand(address);
    assert command[..9] == "RCPT TO:<" && command[9..|command| - 1] == address;
  }

  /** Commands on the wire, each ended by CRLF. */
  function CommandLines(commands: seq<string>): string {
    if commands == [] then "" else CommandLines(commands[..|commands| - 1]) + (commands[|commands| - 1] + CRLF)
  }

  /** What a server reads from the commands for the first `n` recipients. */
  ghost predicate AreNamed(commands: seq<string>, recipients: seq<Address>, n: nat)
    requires n <= |recipients|
  {
    && |commands| == Asked(recipients, n) && (forall c :: c in commands ==> BreakFree(c))
    && forall i :: 0 <= i < n && IsAsked(recipients[i]) ==>
         Asked(recipients, i) < |commands| && AddressIn(commands[Asked(recipients, i)]) == Some(recipients[i].address)
  }

  lemma OneMoreNamed(commands: seq<string>, recipients: seq<Address>, n: nat)
    requires n < |recipients| && AreNamed(commands, recipients, n)
    ensures var c := RcptCommand(recipients[n].address);
      AreNamed(if IsAsked(recipients[n]) then commands + [c] else commands, recipients, n + 1)
  {
    AddressIsRead(recipients[n].address);
  }

  /** The server is asked about the recipients in turn, each by its address. */
  lemma RecipientsAreNamed(s: Conn, recipients: seq<Address>) returns (commands: seq<string>)
    requires s.connected
    ensures Offer(s, recipients).0.wire == s.wire + CommandLines(commands)
    ensures AreNamed(commands, recipients, |recipients|)
  {
    commands := [];
    assert recipients[..0] == [] && s.wire + "" == s.wire;
    for n := 0 to |recipients|
      invariant Offer(s, recipients[..n]).0.connected
      invariant Offer(s, recipients[..n]).0.wire == s.wire + CommandLines(commands)
      invariant AreNamed(commands, recipients, n)
    {
      var c := RcptCommand(recipients[n].address);
      OfferNext(s, recipients, n);
      OneMoreNamed(commands, recipients, n);
      if IsAsked(recipients[n]) {
        assert (commands + [c])[..|commands|] == commands;
        Assoc(s.wire, CommandLines(commands), c + CRLF);
        commands := commands + [c];
      }
    }
    assert recipients[..|recipients|] == recipients;
  }

  lemma RefusedBound(s: Conn, recipients: seq<Address>)
    ensures |Refused(s, recipients)| <= |recipients|
    ensures |Refused(s, recipients)| == 0 <==> forall i: nat :: i < |recipients| ==> IsAcceptedBy(s, recipients, i)
  {
    WhoIsRefused(s, recipients);
    if Refused(s, recipients) == {} {
      forall i: nat | i < |recipients| ensures IsAcceptedBy(s, recipients, i) { assert i !in Refused(s, recipients); }
    }
  }

  class PHPMailer {
    var to: seq<Address>
    var cc: seq<Address>
    var bcc: seq<Address>
    var allRecipients: set<string>
    var replyTo: map<string, Address>
    const validateAddress: string -> bool

    constructor (validate: string -> bool)
      ensures View() == EMPTY && validateAddress == validate
    {
      to, cc, bcc, allRecipients, replyTo := [], [], [], {}, map[];
      validateAddress := validate;
    }

    function View(): Lists
      reads this
    {
      Lists(to, cc, bcc, allRecipients, replyTo)
    }

    /** `addAnAddress`: false for a repeated address, an invalid one or an
        unknown kind. */
    method AddAnAddress(kind: Kind, address: string, name: string) returns (ok: bool)
      modifies this
      ensures (View(), ok) == Add(old(View()), kind, address, name, validateAddress(address))
    {
      if kind.OtherKind? {
        return false;
      }
      if !validateAddress(address) {
        return false;
      }
      if !kind.ReplyTo? {
        if ToLower(address) !in allRecipients {
          if kind.To? {
            to := to + [Address(address, name)];
          } else if kind.Cc? {
            cc := cc + [Address(address, name)];
          } else {
            bcc := bcc + [Address(address, name)];
          }
          allRecipients := allRecipients + {ToLower(address)};
          return true;
        }
      } else if ToLower(address) !in replyTo {
        replyTo := replyTo[ToLower(address) := Address(address, name)];
        return true;
      }
      return false;
    }

    /** The loop of the `clear*` methods: unset each address of the list. */
    method Unindex(list: seq<Address>)
      modifies this`allRecipients
      ensures allRecipients == old(allRecipients) - Elements(Keys(list))
    {
      for i := 0 to |list|
        invariant allRecipients == old(allRecipients) - Elements(Keys(list)[..i])
      {
        allRecipients := allRecipients - {ToLower(list[i].address)};
        assert Keys(list)[..i + 1] == Keys(list)[..i] + [Keys(list)[i]];
      }
      assert Keys(list)[..|list|] == Keys(list);
    }

    method ClearAddresses()
      modifies this
      ensures View() == Clear(old(View()), To)
    {
      Unindex(to);
      to := [];
    }

    method ClearCCs()
      modifies this
      ensures View() == Clear(old(View()), Cc)
    {
      Unindex(cc);
      cc := [];
    }

    method ClearBCCs()
      modifies this
      ensures View() == Clear(old(View()), Bcc)
    {
      Unindex(bcc);
      bcc := [];
    }

    method ClearReplyTos()
      modifies this
      ensures View() == Clear(old(View()), ReplyTo)
    {
      replyTo := map[];
    }

    method ClearAllRecipients()
      modifies this
      ensures View() == ClearAll(old(View()))
    {
      to, cc, bcc, allRecipients := [], [], [], {};
    }

    /** RCPT for one of the lists; returns the number of rejections. */
    method OfferGroup(smtp: SMTP, group: seq<Address>) returns (bad: nat)
      modifies smtp`wire, smtp`replies, smtp`lastReply, smtp`error
      ensures smtp.State() == Offer(old(smtp.State()), group).0
      ensures bad == Rejections(Offer(old(smtp.State()), group).1)
    {
      bad := 0;
      for i := 0 to |group|
        invariant smtp.State() == Offer(old(smtp.State()), group[..i]).0
        invariant bad == Rejections(Offer(old(smtp.State()), group[..i]).1)
      {
        var ok := smtp.Recipient(group[i].address);
        if !ok {
          bad := bad + 1;
        }
        assert group[..i + 1][..i] == group[..i];
        ghost var before := Offer(old(smtp.State()), group[..i]).1;
        assert (before + [ok])[..i] == before;
      }
      assert group[..|group|] == group;
    }

    /** `smtpSend`. The sender is `sender` if that is a valid address, and `from` otherwise.
        DATA is issued if and only if some recipient was accepted: the count of the index
        stands for the count of the lists. */
    method SmtpSend(smtp: SMTP, sender: string, from: string, isValid: string -> bool, header: string, body: string,
        connects: bool, keepAlive: bool)
      returns (outcome: Outcome)
      requires IndexIsExact(View())
      modifies smtp
      ensures !connects ==> outcome == NoConnection && smtp.State() == old(smtp.State())
      ensures connects ==> !outcome.NoConnection? && (outcome.FromRejected? <==>
        !old(smtp.connected && BreakFree(MailCommand(Envelope(sender, from, isValid), smtp.doVerp)) &&
          "250" <= NextReply(smtp.State())))
      ensures connects ==>
        var (s, ok) := Issue(old(smtp.State()), MailCommand(Envelope(sender, from, isValid), old(smtp.doVerp)),
          {"250"});
        if ok then (smtp.State(), outcome) == Deliver(s, to + cc + bcc, header + body, keepAlive)
        else smtp.State() == s && outcome == FromRejected
    {
      if !connects {
        return NoConnection;
      }
      var smtpFrom := from;
      if sender != "" && sender != "0" && isValid(sender) {
        smtpFrom := sender;
      }
      MailBy(smtp.State(), smtpFrom, smtp.doVerp);
      var ok := smtp.Mail(smtpFrom);
      if !ok {
        return FromRejected;
      }
      outcome := SendToAll(smtp, header + body, keepAlive);
    }

    /** The part of `smtpSend` after the sender is accepted. */
    method SendToAll(smtp: SMTP, msg: string, keepAlive: bool) returns (outcome: Outcome)
      requires IndexIsExact(View())
      modifies smtp
      ensures (smtp.State(), outcome) == Deliver(old(smtp.State()), to + cc + bcc, msg, keepAlive)
    {
      ghost var s := smtp.State();
      ghost var accepted := Offer(s, to + cc + bcc).1;
      var badRcpt := OfferAll(smtp);
      IndexCounts(View());
      NoRejections(accepted);
      if |allRecipients| > badRcpt {
        var ok := smtp.Data(msg);
        if !ok {
          return DataRejected;
        }
      }
      if keepAlive {
        var _ := smtp.Reset();
      } else {
        var _ := smtp.Quit();
      }
      if badRcpt > 0 {
        return SomeRejected(badRcpt);
      }
      return Delivered;
    }

    /** RCPT for the three lists in turn. */
    method OfferAll(smtp: SMTP) returns (badRcpt: nat)
      modifies smtp`wire, smtp`replies, smtp`lastReply, smtp`error
      ensures smtp.State() == Offer(old(smtp.State()), to + cc + bcc).0
      ensures badRcpt == Rejections(Offer(old(smtp.State()), to + cc + bcc).1)
    {
      OfferThree(smtp.State(), to, cc, bcc);
      var badTo := OfferGroup(smtp, to);
      var badCc := OfferGroup(smtp, cc);
      var badBcc := OfferGroup(smtp, bcc);
      badRcpt := badTo + badCc + badBcc;
    }
  }

  lemma {:induction false} RejectionsAppend(a: seq<bool>, b: seq<bool>)
    ensures Rejections(a + b) == Rejections(a) + Rejections(b)
    decreases |b|
  {
    if b == [] {
      assert a + b == a;
    } else {
      var m := |b| - 1;
      assert (a + b)[..|a + b| - 1] == a + b[..m];
      RejectionsAppend(a, b[..m]);
    }
  }

  /** Offering the three lists one after the other is offering their
      concatenation. */
  lemma OfferThree(s: Conn, to: seq<Address>, cc: seq<Address>, bcc: seq<Address>)
    ensures var (s1, a1) := Offer(s, to);
      var (s2, a2) := Offer(s1, cc);
      var (s3, a3) := Offer(s2, bcc);
      && Offer(s, to + cc + bcc).0 == s3
      && Rejections(Offer(s, to + cc + bcc).1) == Rejections(a1) + Rejections(a2) + Rejections(a3)
  {
    var (s1, a1) := Offer(s, to);
    var (s2, a2) := Offer(s1, cc);
    var (s3, a3) := Offer(s2, bcc);
    OfferAppend(s, to, cc);
    OfferAppend(s, to + cc, bcc);
    RejectionsAppend(a1, a2);
    RejectionsAppend(a1 + a2, a3);
  }
}
