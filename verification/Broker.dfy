/** What the frames written on one connection mean to the broker: a table from SID to subject. */
module Broker {
  import opened Bytes
  import opened Frames

  type Table = map<nat, GoString>

  const SID_LIMIT: nat := 0x1_0000_0000

  function MsgFrame(subject: GoString, payload: seq<byte>): Frame {
    Frame(OP_MSG, subject, [], payload)
  }

  function SubFrame(subject: GoString, sid: nat): Frame {
    Frame(OP_SUB, subject, [], PutLE(sid, 4))
  }

  function UnsubFrame(sid: nat): Frame {
    Frame(OP_UNSUB, PutLE(sid, 4), [], [])
  }

  const PONG_FRAME := Frame(OP_PONG, [], [], [])

  /** The frames a client writes, byte for byte: op codes 3, 5 and 6, and a SID as four bytes, lowest first. */
  lemma MsgBytes(subject: GoString, payload: seq<byte>)
    requires |subject| < 0x1_0000 && |payload| < 0x1_0000_0000
    ensures var (m, n) := (|subject|, |payload|);
            Encode(MsgFrame(subject, payload))
            == [3, m % 256, m / 256, 0, 0, n % 256, n / 0x100 % 256, n / 0x1_0000 % 256, n / 0x100_0000]
               + subject + payload
  {
    hide Encode;
    EncodedBytes(MsgFrame(subject, payload));
  }

  function SIDAsBytes(sid: nat): seq<byte>
    requires sid < SID_LIMIT
  {
    [sid % 256, sid / 0x100 % 256, sid / 0x1_0000 % 256, sid / 0x100_0000]
  }

  lemma SubBytes(subject: GoString, sid: nat)
    requires |subject| < 0x1_0000 && sid < SID_LIMIT
    ensures var m := |subject|;
            Encode(SubFrame(subject, sid)) == [5, m % 256, m / 256, 0, 0, 4, 0, 0, 0] + subject + SIDAsBytes(sid)
  {
    hide Encode, PutLE;
    EncodedBytes(SubFrame(subject, sid));
    FourBytes(sid);
  }

  lemma UnsubBytes(sid: nat)
    requires sid < SID_LIMIT
    ensures Encode(UnsubFrame(sid)) == [6, 4, 0, 0, 0, 0, 0, 0, 0] + SIDAsBytes(sid)
  {
    hide Encode, PutLE;
    EncodedBytes(UnsubFrame(sid));
    FourBytes(sid);
  }

  /** Sub binds its payload's SID to its subject, Unsub drops its subject's SID, anything else is inert. */
  function Apply(table: Table, f: Frame): Table {
    if f.op == OP_SUB then table[GetLE(f.payload) := f.subject]
    else if f.op == OP_UNSUB then table - {GetLE(f.subject)}
    else table
  }

  function Replay(fs: seq<Frame>): Table {
    if fs == [] then map[] else Apply(Replay(fs[..|fs| - 1]), fs[|fs| - 1])
  }

  /** The table a broker holds after reading these bytes. */
  function WireTable(bytes: seq<byte>): Table {
    Replay(Parse(bytes))
  }

  /** The table holds each of the subjects under exactly one SID, and nothing else. */
  ghost predicate Exact(table: Table, subjects: set<GoString>) {
    && (forall sid <- table :: table[sid] in subjects)
    && (forall x <- subjects :: exists sid :: sid in table && table[sid] == x)
    && (forall s, t :: s in table && t in table && table[s] == table[t] ==> s == t)
  }

  lemma ReplaySnoc(fs: seq<Frame>, f: Frame)
    ensures Replay(fs + [f]) == Apply(Replay(fs), f)
  {
    assert (fs + [f])[..|fs|] == fs;
  }

  /** The bytes of whole in-range frames mean what the frames mean. */
  lemma WireTableOfFrames(fs: seq<Frame>)
    requires AllInRange(fs)
    ensures WireTable(EncodeAll(fs)) == Replay(fs)
  {
    ParseEncodeAll(fs, []);
    assert EncodeAll(fs) + [] == EncodeAll(fs);
  }

  lemma SidBytes(sid: nat)
    requires sid < SID_LIMIT
    ensures GetLE(PutLE(sid, 4)) == sid
  {
    GetPut(sid, 4);
    PowValues();
  }

  lemma SubMeaning(fs: seq<Frame>, subject: GoString, sid: nat)
    requires sid < SID_LIMIT
    ensures Replay(fs + [SubFrame(subject, sid)]) == Replay(fs)[sid := subject]
  {
    ReplaySnoc(fs, SubFrame(subject, sid));
    SidBytes(sid);
  }

  lemma UnsubMeaning(fs: seq<Frame>, sid: nat)
    requires sid < SID_LIMIT
    ensures Replay(fs + [UnsubFrame(sid)]) == Replay(fs) - {sid}
  {
    ReplaySnoc(fs, UnsubFrame(sid));
    SidBytes(sid);
  }

  /**
    Subscribing to a new subject keeps the broker in exact agreement if and only if the SID it is
    given is not still bound: SIDs come from a 32-bit counter, so a long-lived one can come round again.
   */
  lemma SubscribeExact(table: Table, subjects: set<GoString>, sid: nat, subject: GoString)
    requires Exact(table, subjects) && subject !in subjects
    ensures Exact(table[sid := subject], subjects + {subject}) <==> sid !in table
  {
    var table' := table[sid := subject];
    if sid in table {
      var lost := table[sid];
      assert lost in subjects + {subject};
      assert forall t :: t in table' ==> table'[t] != lost;
    } else {
      assert table'[sid] == subject;
      forall x <- subjects ensures exists t :: t in table' && table'[t] == x {
        var t :| t in table && table[t] == x;
        assert table'[t] == x;
      }
    }
  }

  lemma UnsubscribeExact(table: Table, subjects: set<GoString>, sid: nat, subject: GoString)
    requires Exact(table, subjects) && sid in table && table[sid] == subject
    ensures Exact(table - {sid}, subjects - {subject})
  {
    var table' := table - {sid};
    forall x <- subjects - {subject} ensures exists t :: t in table' && table'[t] == x {
      var t :| t in table && table[t] == x;
      assert table'[t] == x;
    }
  }

  /**
    A table is exact for one set of subjects only. So an Unsub that is not written breaks the agreement, because
    its handler is gone; a Sub that is not written does not, because its handler is withdrawn again.
   */
  lemma UnwrittenChangeBreaks(table: Table, subjects: set<GoString>, changed: set<GoString>)
    requires Exact(table, subjects)
    ensures Exact(table, changed) <==> changed == subjects
  {
    if Exact(table, changed) {
      assert forall x <- subjects :: x in changed;
      assert forall x <- changed :: x in subjects;
    }
  }

  // ---- Who may drop which SID ----

  /** The SID under which each handled subject is known to the broker. */
  type Owners = map<GoString, nat>

  /** Each handled subject owns a SID bound to it; any other SID in the table is an orphan, which nobody will drop. */
  ghost predicate Ledger(table: Table, owner: Owners, orphans: set<nat>) {
    && (forall x <- owner :: owner[x] in table && table[owner[x]] == x && owner[x] !in orphans)
    && (forall sid <- orphans :: sid in table)
    && (forall sid <- table :: sid in orphans || (table[sid] in owner && owner[table[sid]] == sid))
  }

  lemma OrphanIsExtra(table: Table, owner: Owners, orphans: set<nat>, o: nat)
    requires Ledger(table, owner, orphans) && o in orphans
    ensures o in table && (table[o] in owner ==> exists sid :: sid in table && table[sid] == table[o] && sid != o)
  {
    if table[o] in owner {
      assert table[owner[table[o]]] == table[o];
    }
  }

  /** The table is exact for the handled subjects exactly when there are no orphans. */
  lemma ExactIffNoOrphans(table: Table, owner: Owners, orphans: set<nat>)
    requires Ledger(table, owner, orphans)
    ensures Exact(table, owner.Keys) <==> orphans == {}
  {
    if o :| o in orphans {
      OrphanIsExtra(table, owner, orphans, o);
    } else {
      forall x <- owner.Keys ensures exists sid :: sid in table && table[sid] == x {
        assert table[owner[x]] == x;
      }
    }
  }

  /** The orphans once subject x has lost its SID. */
  ghost function Orphaned(owner: Owners, orphans: set<nat>, x: GoString): set<nat> {
    if x in owner then orphans + {owner[x]} else orphans
  }

  lemma LedgerSubscribe(table: Table, owner: Owners, orphans: set<nat>, sid: nat, x: GoString)
    requires Ledger(table, owner, orphans) && sid !in table
    ensures Ledger(table[sid := x], owner[x := sid], Orphaned(owner, orphans, x))
  {
  }

  lemma LedgerWithdraw(table: Table, owner: Owners, orphans: set<nat>, x: GoString)
    requires Ledger(table, owner, orphans)
    ensures Ledger(table, owner - {x}, Orphaned(owner, orphans, x))
  {
  }

  lemma LedgerUnsubscribe(table: Table, owner: Owners, orphans: set<nat>, x: GoString)
    requires Ledger(table, owner, orphans) && x in owner
    ensures Ledger(table - {owner[x]}, owner - {x}, orphans)
  {
  }

  // ---- The SID counter ----

  /** The SID handed to the j-th subscribe (from 0) of a connection: a u32 that starts at 1 and wraps. */
  function NthSID(j: nat): nat {
    (j + 1) % SID_LIMIT
  }

  /** Two subscribes of one connection get the same SID exactly when they lie a multiple of 2^32 apart. */
  lemma SIDsCollide(i: nat, j: nat)
    ensures NthSID(i) == NthSID(j) <==> (j - i) % SID_LIMIT == 0
  {
    var m := SID_LIMIT;
    var a, b := (i + 1) / m, (j + 1) / m;
    var r, t := (i + 1) % m, (j + 1) % m;
    assert i + 1 == m * a + r && j + 1 == m * b + t;
    assert j - i == m * (b - a) + (t - r);
  }
}
