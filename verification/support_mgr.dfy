/**
 * Support-ticket bookkeeping: bug, complaint and suggestion tickets kept in
 * three maps keyed by ticket id, per-kind id generators and open-ticket
 * counters (all uint32), and the switches of the support subsystems.
 *
 * An object GUID is a `nat`; the empty GUID is 0.
 */
module SupportMgr {

  /** The uint32 range. */
  const Uint32Modulus: nat := 0x1_0000_0000

  /** The uint64 range. */
  const Uint64Modulus: nat := 0x1_0000_0000_0000_0000

  type Guid = nat

  const EmptyGuid: Guid := 0

  /** The fields shared by every kind of ticket. */
  datatype Ticket = Ticket(
    id: nat,
    playerGuid: Guid,
    closedBy: Guid,
    assignedTo: Guid,
    comment: string,
    note: string)
  {
    /** Closed once somebody (a GM, the console or the player) closed it. */
    predicate IsClosed() { closedBy != EmptyGuid }
    predicate IsFromPlayer(guid: Guid) { guid == playerGuid }
    predicate IsAssigned() { assignedTo != EmptyGuid }
    predicate IsAssignedTo(guid: Guid) { guid == assignedTo }
    predicate IsAssignedNotTo(guid: Guid) { IsAssigned() && !IsAssignedTo(guid) }
  }

  /** Assigns the ticket; the empty GUID leaves it unassigned. */
  function SetAssignedTo(t: Ticket, guid: Guid): (r: Ticket)
    ensures r.IsAssignedTo(guid)
    ensures r.IsAssigned() <==> guid != EmptyGuid
    ensures forall g: Guid :: r.IsAssignedNotTo(g) <==> guid != EmptyGuid && g != guid
    ensures r.(assignedTo := t.assignedTo) == t
  {
    t.(assignedTo := guid)
  }

  /** Clears the assignment. */
  function SetUnassigned(t: Ticket): (r: Ticket)
    ensures !r.IsAssigned()
    ensures forall g: Guid :: !r.IsAssignedNotTo(g)
    ensures r.(assignedTo := t.assignedTo) == t
  {
    t.(assignedTo := EmptyGuid)
  }

  /** Records who closed the ticket; the empty GUID reopens it. */
  function SetClosedBy(t: Ticket, value: Guid): (r: Ticket)
    ensures r.closedBy == value
    ensures r.IsClosed() <==> value != EmptyGuid
    ensures r.(closedBy := t.closedBy) == t
  {
    t.(closedBy := value)
  }

  /** Replaces the comment. */
  function SetComment(t: Ticket, comment: string): (r: Ticket)
    ensures r.comment == comment
    ensures r.(comment := t.comment) == t
  {
    t.(comment := comment)
  }

  /** Assigning and then unassigning leaves the ticket as an unassigned copy of the original. */
  lemma AssignThenUnassign(t: Ticket, guid: Guid)
    ensures SetUnassigned(SetAssignedTo(t, guid)) == SetUnassigned(t)
  {
  }

  /** An assignment to someone else excludes being assigned to `g`, and vice versa. */
  lemma AssignedNotToExcludesAssignedTo(t: Ticket, g: Guid)
    ensures t.IsAssignedNotTo(g) ==> !t.IsAssignedTo(g)
    ensures t.IsAssigned() ==> (t.IsAssignedTo(g) <==> !t.IsAssignedNotTo(g))
  {
  }

  // ---------------------------------------------------------------------
  // Kinds of tickets and the per-kind selection

  datatype TicketKind = Bug | Complaint | Suggestion

  /** One value per kind of ticket. */
  datatype ByKind<T> = ByKind(bug: T, complaint: T, suggestion: T)
  {
    /** The value of one kind: bug, complaint or suggestion argument in that order. */
    function Select(k: TicketKind): (r: T)
      ensures k == Bug ==> r == bug
      ensures k == Complaint ==> r == complaint
      ensures k == Suggestion ==> r == suggestion
    {
      match k
      case Bug => bug
      case Complaint => complaint
      case Suggestion => suggestion
    }

    /** Replaces the value of one kind. */
    function With(k: TicketKind, v: T): (r: ByKind<T>)
      ensures r.Select(k) == v
      ensures forall o :: o != k ==> r.Select(o) == Select(o)
    {
      match k
      case Bug => this.(bug := v)
      case Complaint => this.(complaint := v)
      case Suggestion => this.(suggestion := v)
    }
  }

  // ---------------------------------------------------------------------
  // The manager

  /** The subsystems whose switches are gated on the support switch. */
  datatype Subsystem = Tickets | Bugs | Complaints | Suggestions

  datatype Manager = Manager(
    supportSystemStatus: bool,
    ticketSystemStatus: bool,
    bugSystemStatus: bool,
    complaintSystemStatus: bool,
    suggestionSystemStatus: bool,
    tickets: ByKind<map<nat, Ticket>>,
    lastIds: ByKind<nat>,
    lastChange: nat,
    openCounts: ByKind<nat>)

  /** Counters stay uint32 and the last change uint64. */
  predicate Valid(m: Manager)
  {
    && (forall k :: m.lastIds.Select(k) < Uint32Modulus)
    && (forall k :: m.openCounts.Select(k) < Uint32Modulus)
    && m.lastChange < Uint64Modulus
  }

  /** The switch of the support system as a whole. */
  function GetSupportSystemStatus(m: Manager): bool
  {
    m.supportSystemStatus
  }

  /** A subsystem's own switch, regardless of the support switch. */
  function OwnSwitch(m: Manager, s: Subsystem): bool
  {
    match s
    case Tickets => m.ticketSystemStatus
    case Bugs => m.bugSystemStatus
    case Complaints => m.complaintSystemStatus
    case Suggestions => m.suggestionSystemStatus
  }

  /** A subsystem is on only when both the support switch and its own switch are on. */
  function GetSystemStatus(m: Manager, s: Subsystem): (r: bool)
    ensures r <==> m.supportSystemStatus && OwnSwitch(m, s)
    ensures !m.supportSystemStatus ==> !r
  {
    match s
    case Tickets => m.supportSystemStatus && m.ticketSystemStatus
    case Bugs => m.supportSystemStatus && m.bugSystemStatus
    case Complaints => m.supportSystemStatus && m.complaintSystemStatus
    case Suggestions => m.supportSystemStatus && m.suggestionSystemStatus
  }

  /** Sets the support switch. */
  function SetSupportSystemStatus(m: Manager, status: bool): (r: Manager)
    ensures GetSupportSystemStatus(r) == status
    ensures r.(supportSystemStatus := m.supportSystemStatus) == m
  {
    m.(supportSystemStatus := status)
  }

  /** Sets one subsystem's own switch. */
  function SetSystemStatus(m: Manager, s: Subsystem, status: bool): (r: Manager)
    ensures OwnSwitch(r, s) == status
    ensures forall o :: o != s ==> OwnSwitch(r, o) == OwnSwitch(m, o)
    ensures r.supportSystemStatus == m.supportSystemStatus
    ensures r.tickets == m.tickets && r.lastIds == m.lastIds && r.openCounts == m.openCounts && r.lastChange == m.lastChange
  {
    match s
    case Tickets => m.(ticketSystemStatus := status)
    case Bugs => m.(bugSystemStatus := status)
    case Complaints => m.(complaintSystemStatus := status)
    case Suggestions => m.(suggestionSystemStatus := status)
  }

  /**
   * Turning support off turns every subsystem off whatever its own switch,
   * and turning it back on restores each subsystem to its own switch.
   */
  lemma SupportSwitchGatesEverySubsystem(m: Manager, s: Subsystem)
    ensures !GetSystemStatus(SetSupportSystemStatus(m, false), s)
    ensures GetSystemStatus(SetSupportSystemStatus(m, true), s) == OwnSwitch(m, s)
    ensures GetSystemStatus(SetSystemStatus(m, s, true), s) == GetSupportSystemStatus(m)
  {
  }

  /** Records the time of the last change (seconds, read as uint64). */
  function UpdateLastChange(m: Manager, now: int): (r: Manager)
    ensures r.lastChange < Uint64Modulus
    ensures 0 <= now < Uint64Modulus ==> r.lastChange == now
    ensures r.(lastChange := m.lastChange) == m
  {
    m.(lastChange := now % Uint64Modulus)
  }

  /** The id after `last` in uint32 arithmetic. */
  function NextId(last: nat): (r: nat)
    ensures r < Uint32Modulus
    ensures last < Uint32Modulus - 1 ==> r == last + 1
    ensures last == Uint32Modulus - 1 ==> r == 0
  {
    (last + 1) % Uint32Modulus
  }

  /**
   * Generates an id of one kind: pre-increments that kind's counter and
   * returns the new value; the other kinds' counters do not move.
   */
  function GenerateId(m: Manager, k: TicketKind): (r: (Manager, nat))
    requires Valid(m)
    ensures Valid(r.0)
    ensures r.1 == r.0.lastIds.Select(k)
    ensures (r.1 - m.lastIds.Select(k)) % Uint32Modulus == 1
    ensures forall o :: o != k ==> r.0.lastIds.Select(o) == m.lastIds.Select(o)
    ensures r.0.(lastIds := m.lastIds) == m
  {
    var id := NextId(m.lastIds.Select(k));
    (m.(lastIds := m.lastIds.With(k, id)), id)
  }

  /** Generates `n` ids of one kind in a row. */
  function GenerateIds(m: Manager, k: TicketKind, n: nat): (r: (Manager, seq<nat>))
    requires Valid(m)
    ensures Valid(r.0) && |r.1| == n
    decreases n
  {
    if n == 0 then (m, [])
    else
      var (m1, id) := GenerateId(m, k);
      var (m2, ids) := GenerateIds(m1, k, n - 1);
      (m2, [id] + ids)
  }

  /** The `i`-th of `n` ids generated in a row is the starting counter plus `i + 1`, modulo 2^32. */
  lemma {:induction false} GeneratedIdsAreConsecutive(m: Manager, k: TicketKind, n: nat)
    requires Valid(m)
    ensures var (m', ids) := GenerateIds(m, k, n);
            && (forall i :: 0 <= i < n ==> ids[i] == (m.lastIds.Select(k) + i + 1) % Uint32Modulus)
            && m'.lastIds.Select(k) == (m.lastIds.Select(k) + n) % Uint32Modulus
    decreases n
  {
    if n > 0 {
      var (m1, id) := GenerateId(m, k);
      GeneratedIdsAreConsecutive(m1, k, n - 1);
      var (m2, ids) := GenerateIds(m1, k, n - 1);
      var c := m.lastIds.Select(k);
      var c1 := m1.lastIds.Select(k);
      assert id == c1 == (c + 1) % Uint32Modulus;
      var run := [id] + ids;
      forall i | 1 <= i < |run|
        ensures run[i] == (c1 + (i - 1) + 1) % Uint32Modulus
      {
        assert run[i] == ids[i - 1];
      }
      ConsecutiveAfterOne(c, run);
      ModAddAssoc(c + 1, n - 1);
    }
  }

  /** A run that starts at the successor of `c` and counts up from there counts up from `c`. */
  lemma ConsecutiveAfterOne(c: nat, run: seq<nat>)
    requires forall i :: 1 <= i < |run| ==> run[i] == ((c + 1) % Uint32Modulus + (i - 1) + 1) % Uint32Modulus
    requires |run| > 0 ==> run[0] == (c + 1) % Uint32Modulus
    ensures forall i :: 0 <= i < |run| ==> run[i] == (c + i + 1) % Uint32Modulus
  {
    forall i | 1 <= i < |run|
      ensures run[i] == (c + i + 1) % Uint32Modulus
    {
      ModAddAssoc(c + 1, i);
    }
  }

  lemma ModAddAssoc(a: nat, b: nat)
    ensures (a % Uint32Modulus + b) % Uint32Modulus == (a + b) % Uint32Modulus
  {
  }

  /** Up to 2^32 ids generated in a row are pairwise distinct; the 2^32 + 1st repeats the first. */
  lemma GeneratedIdsDistinct(m: Manager, k: TicketKind, n: nat, i: nat, j: nat)
    requires Valid(m)
    requires n <= Uint32Modulus && i < j < n
    ensures GenerateIds(m, k, n).1[i] != GenerateIds(m, k, n).1[j]
  {
    GeneratedIdsAreConsecutive(m, k, n);
    var c := m.lastIds.Select(k);
    ResiduesDiffer(c + i + 1, c + j + 1);
  }

  /** Two numbers less than 2^32 apart have distinct residues. */
  lemma ResiduesDiffer(a: nat, b: nat)
    requires a < b < a + Uint32Modulus
    ensures a % Uint32Modulus != b % Uint32Modulus
  {
    var q, r, d := a / Uint32Modulus, a % Uint32Modulus, b - a;
    assert a == q * Uint32Modulus + r;
    if r + d < Uint32Modulus {
      assert b == q * Uint32Modulus + (r + d);
      assert b % Uint32Modulus == r + d;
    } else {
      assert b == (q + 1) * Uint32Modulus + (r + d - Uint32Modulus);
      assert b % Uint32Modulus == r + d - Uint32Modulus;
    }
  }

  /** The complaints filed by one player, under their own ids. */
  function GetComplaintsByPlayerGuid(m: Manager, playerGuid: Guid): (r: map<nat, Ticket>)
    ensures forall id :: id in r <==> id in m.tickets.complaint && m.tickets.complaint[id].playerGuid == playerGuid
    ensures forall id :: id in r ==> r[id] == m.tickets.complaint[id]
  {
    var complaints := m.tickets.complaint;
    map id | id in complaints && complaints[id].IsFromPlayer(playerGuid) :: complaints[id]
  }

  /** Every complaint is listed for its own player and for no other. */
  lemma ComplaintListedForItsPlayerOnly(m: Manager, id: nat, g: Guid)
    requires id in m.tickets.complaint
    ensures id in GetComplaintsByPlayerGuid(m, m.tickets.complaint[id].playerGuid)
    ensures g != m.tickets.complaint[id].playerGuid ==> id !in GetComplaintsByPlayerGuid(m, g)
  {
  }

  /** The open-ticket counter of one kind. */
  function GetOpenTicketCount(m: Manager, k: TicketKind): (r: nat)
    ensures k == Bug ==> r == m.openCounts.bug
    ensures k == Complaint ==> r == m.openCounts.complaint
    ensures k == Suggestion ==> r == m.openCounts.suggestion
  {
    m.openCounts.Select(k)
  }

  /** The uint32 decrement: 0 wraps to 2^32 - 1. */
  function Decrement(c: nat): (r: nat)
    requires c < Uint32Modulus
    ensures r < Uint32Modulus
    ensures c > 0 ==> r == c - 1
    ensures c == 0 ==> r == Uint32Modulus - 1
  {
    (c + Uint32Modulus - 1) % Uint32Modulus
  }

  /**
   * Closes a ticket of one kind: when the id is known, record who closed it
   * and, for a non-empty closer, decrement that kind's open counter. An
   * unknown id changes nothing.
   */
  function CloseTicket(m: Manager, k: TicketKind, ticketId: nat, closedBy: Guid): (r: Manager)
    requires Valid(m)
    ensures Valid(r)
    ensures ticketId !in m.tickets.Select(k) ==> r == m
    ensures ticketId in m.tickets.Select(k) ==>
              && r.tickets.Select(k) == m.tickets.Select(k)[ticketId := SetClosedBy(m.tickets.Select(k)[ticketId], closedBy)]
              && (r.tickets.Select(k)[ticketId].IsClosed() <==> closedBy != EmptyGuid)
              && (closedBy != EmptyGuid ==> r.openCounts.Select(k) == Decrement(m.openCounts.Select(k)))
              && (closedBy == EmptyGuid ==> r.openCounts.Select(k) == m.openCounts.Select(k))
    ensures forall o :: o != k ==> r.tickets.Select(o) == m.tickets.Select(o) && r.openCounts.Select(o) == m.openCounts.Select(o)
    ensures r.(tickets := m.tickets, openCounts := m.openCounts) == m
  {
    var list := m.tickets.Select(k);
    if ticketId !in list then m
    else
      var closed := m.(tickets := m.tickets.With(k, list[ticketId := SetClosedBy(list[ticketId], closedBy)]));
      if closedBy != EmptyGuid then
        closed.(openCounts := m.openCounts.With(k, Decrement(m.openCounts.Select(k))))
      else closed
  }

  /** The ids of the open tickets of a map. */
  function OpenIds(list: map<nat, Ticket>): set<nat>
  {
    set id | id in list && !list[id].IsClosed()
  }

  /** The ids of the closed tickets of a map. */
  function ClosedIds(list: map<nat, Ticket>): set<nat>
  {
    set id | id in list && list[id].IsClosed()
  }

  /** The counter of one kind agrees with the number of open tickets of that kind. */
  predicate CountMatches(m: Manager, k: TicketKind)
  {
    m.openCounts.Select(k) == |OpenIds(m.tickets.Select(k))|
  }

  /**
   * Closing an open ticket with a non-empty closer keeps the counter in
   * agreement with the open tickets.
   */
  lemma CloseOpenTicketKeepsCount(m: Manager, k: TicketKind, ticketId: nat, closedBy: Guid)
    requires Valid(m) && CountMatches(m, k)
    requires ticketId in m.tickets.Select(k) && !m.tickets.Select(k)[ticketId].IsClosed()
    requires closedBy != EmptyGuid
    ensures CountMatches(CloseTicket(m, k, ticketId, closedBy), k)
  {
    var list := m.tickets.Select(k);
    var r := CloseTicket(m, k, ticketId, closedBy);
    assert OpenIds(r.tickets.Select(k)) == OpenIds(list) - {ticketId};
    assert ticketId in OpenIds(list);
  }

  /**
   * Closing an already closed ticket again still decrements: a counter that
   * agreed with the open tickets no longer does. Callers must not close a
   * closed ticket.
   */
  lemma CloseClosedTicketBreaksCount(m: Manager, k: TicketKind, ticketId: nat, closedBy: Guid)
    requires Valid(m) && CountMatches(m, k)
    requires ticketId in m.tickets.Select(k) && m.tickets.Select(k)[ticketId].IsClosed()
    requires closedBy != EmptyGuid
    ensures !CountMatches(CloseTicket(m, k, ticketId, closedBy), k)
  {
    var list := m.tickets.Select(k);
    var r := CloseTicket(m, k, ticketId, closedBy);
    assert OpenIds(r.tickets.Select(k)) == OpenIds(list);
  }

  /** The ids the open list shows for one kind: every open ticket. */
  function ShowList(m: Manager, k: TicketKind): (r: set<nat>)
    ensures forall id :: id in r <==> id in m.tickets.Select(k) && !m.tickets.Select(k)[id].IsClosed()
  {
    OpenIds(m.tickets.Select(k))
  }

  /** The ids the closed list shows for one kind: every closed ticket. */
  function ShowClosedList(m: Manager, k: TicketKind): (r: set<nat>)
    ensures forall id :: id in r <==> id in m.tickets.Select(k) && m.tickets.Select(k)[id].IsClosed()
  {
    ClosedIds(m.tickets.Select(k))
  }

  /** The open and closed lists partition the tickets of a kind. */
  lemma ListsPartitionTickets(m: Manager, k: TicketKind)
    ensures ShowList(m, k) * ShowClosedList(m, k) == {}
    ensures ShowList(m, k) + ShowClosedList(m, k) == m.tickets.Select(k).Keys
    ensures |ShowList(m, k)| + |ShowClosedList(m, k)| == |m.tickets.Select(k)|
  {
    var open := ShowList(m, k);
    var closed := ShowClosedList(m, k);
    assert open + closed == m.tickets.Select(k).Keys;
    assert |open + closed| == |open| + |closed| - |open * closed|;
  }

  /** Closing a listed open ticket moves it from the open list to the closed list. */
  lemma CloseMovesBetweenLists(m: Manager, k: TicketKind, ticketId: nat, closedBy: Guid)
    requires Valid(m)
    requires ticketId in ShowList(m, k) && closedBy != EmptyGuid
    ensures ShowList(CloseTicket(m, k, ticketId, closedBy), k) == ShowList(m, k) - {ticketId}
    ensures ShowClosedList(CloseTicket(m, k, ticketId, closedBy), k) == ShowClosedList(m, k) + {ticketId}
  {
  }
}
