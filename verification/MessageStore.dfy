/** The message tables as one session sees them, and the statements its writers issue.

  Rows are in id order.  Every statement of the writers names one session key,
  so a session is its own rows, archive and meta row; what it shares with other
  sessions is the AUTOINCREMENT counter, which others may advance at any time.

  A writer (posting, automatic and manual compaction, the two resets) is the
  program of SQL statements it issues, computed from the state it read, so that
  stopping between two statements is running a prefix of that program. */
module MessageStore {
  import opened Options
  import opened Strings

  /** `origin` is not a column: it is the id the message had when it was first
    inserted, so it identifies a message across re-insertions. */
  datatype Message = Message(id: nat, role: string, content: string, origin: nat)

  /** A row of messages_archive; the row's own id is its position. */
  datatype Archived = Archived(sourceId: nat, role: string, content: string, origin: nat)

  /** An absent session_meta row reads as all zeroes. */
  datatype Meta = Meta(totalTokens: int, compactionCount: int, lastSummary: string,
                       watermark: int, flushCount: int)

  datatype Session = Session(rows: seq<Message>, archive: seq<Archived>, meta: Meta, nextId: nat)

  datatype Statement =
    | Insert(role: string, content: string, origin: Option<nat>)
    | Archive(beforeId: int)
    | Clear
    | PutMeta(row: Meta)

  const NEW_SESSION := Session([], [], Meta(0, 0, "", 0, 0), 1)

  // ---------------------------------------------------------------- queries

  function Lower(c: char): char {
    if 'A' <= c <= 'Z' then c - 'A' + 'a' else c
  }

  /** `role = 'system' AND content LIKE '[summary]%'`; LIKE ignores ASCII case. */
  predicate IsSummary(role: string, content: string) {
    && role == "system"
    && |content| >= 9
    && content[0] == '['
    && Lower(content[1]) == 's' && Lower(content[2]) == 'u' && Lower(content[3]) == 'm'
    && Lower(content[4]) == 'm' && Lower(content[5]) == 'a' && Lower(content[6]) == 'r'
    && Lower(content[7]) == 'y'
    && content[8] == ']'
  }

  lemma TaggedIsSummary(summary: string)
    ensures IsSummary("system", "[summary]\n" + summary)
  {
    assert ("[summary]\n" + summary)[..9] == "[summary]";
  }

  function GetMessages(s: Session, limit: nat): seq<Message> {
    if |s.rows| <= limit then s.rows else s.rows[..limit]
  }

  predicate HasSource(archive: seq<Archived>, id: nat) {
    exists a :: a in archive && a.sourceId == id
  }

  predicate Selected(m: Message, watermark: int, beforeId: int) {
    watermark < m.id <= beforeId && !IsSummary(m.role, m.content)
  }

  function AsArchived(m: Message): Archived {
    Archived(m.id, m.role, m.content, m.origin)
  }

  /** INSERT OR IGNORE ... SELECT under the unique index on the source id. */
  function ArchiveInto(archive: seq<Archived>, rows: seq<Message>, watermark: int, beforeId: int): seq<Archived> {
    if rows == [] then archive
    else
      var done := ArchiveInto(archive, rows[..|rows| - 1], watermark, beforeId);
      var m := rows[|rows| - 1];
      if Selected(m, watermark, beforeId) && !HasSource(done, m.id) then done + [AsArchived(m)] else done
  }

  // ------------------------------------------------------------- statements

  function Exec(s: Session, stmt: Statement): Session {
    match stmt
    case Insert(role, content, origin) =>
      var row := Message(s.nextId, role, content, if origin.Some? then origin.value else s.nextId);
      s.(rows := s.rows + [row], nextId := s.nextId + 1)
    case Archive(beforeId) =>
      s.(archive := ArchiveInto(s.archive, s.rows, s.meta.watermark, beforeId))
    case Clear => s.(rows := [])
    case PutMeta(row) => s.(meta := row)
  }

  datatype Program = Done | Then(first: Statement, rest: Program)

  function ExecAll(s: Session, p: Program): Session
    decreases p
  {
    match p
    case Done => s
    case Then(first, rest) => ExecAll(Exec(s, first), rest)
  }

  // ------------------------------------------------------- the writers' plans

  const COMPACT_LIMIT: nat := 500
  const RESET_LIMIT: nat := 1000

  /** Strings here stand for their bytes, so that the cut is at 200 bytes. */
  function SummaryLine(m: Message): string {
    m.role + ": " + (if |m.content| > 200 then m.content[..200] + "..." else m.content)
  }

  /** One line per message, joined by newlines. */
  function BuildSummary(rows: seq<Message>): string {
    if rows == [] then ""
    else if |rows| == 1 then SummaryLine(rows[0])
    else SummaryLine(rows[0]) + "\n" + BuildSummary(rows[1..])
  }

  function SummaryLines(rows: seq<Message>): (lines: seq<string>)
    ensures |lines| == |rows| && forall i :: 0 <= i < |rows| ==> lines[i] == SummaryLine(rows[i])
  {
    seq(|rows|, i requires 0 <= i < |rows| => SummaryLine(rows[i]))
  }

  /** A summary is the join of its lines, and without line breaks in roles and
    contents it can be taken apart again. */
  lemma {:induction false} SummaryIsJoined(rows: seq<Message>)
    requires rows != []
    ensures BuildSummary(rows) == Join(SummaryLines(rows), '\n')
    ensures (forall i :: 0 <= i < |rows| ==> '\n' !in rows[i].role && '\n' !in rows[i].content) ==>
              Split(BuildSummary(rows), '\n') == SummaryLines(rows)
  {
    hide SummaryLine;
    if |rows| > 1 {
      SummaryIsJoined(rows[1..]);
      assert SummaryLines(rows)[1..] == SummaryLines(rows[1..]);
      assert SummaryLine(rows[0]) + "\n" + BuildSummary(rows[1..])
          == SummaryLine(rows[0]) + ['\n'] + BuildSummary(rows[1..]);
    }
    if forall i :: 0 <= i < |rows| ==> '\n' !in rows[i].role && '\n' !in rows[i].content {
      forall i | 0 <= i < |rows| ensures '\n' !in SummaryLines(rows)[i] { OneLineEach(rows[i]); }
      SplitJoin(SummaryLines(rows), '\n');
    }
  }

  lemma OneLineEach(m: Message)
    requires '\n' !in m.role && '\n' !in m.content
    ensures '\n' !in SummaryLine(m)
  {}

  function ReInsert(rows: seq<Message>, rest: Program): Program {
    if rows == [] then rest
    else Then(Insert(rows[0].role, rows[0].content, Some(rows[0].origin)), ReInsert(rows[1..], rest))
  }

  function AddSummary(summary: string, rest: Program): Program {
    if summary == "" then rest else Then(Insert("system", "[summary]\n" + summary, None), rest)
  }

  function ResetMarker(stamp: string): string { "[session reset] " + stamp }

  predicate Compacts(s: Session, keep: nat, tokens: int, threshold: int) {
    tokens >= threshold && |GetMessages(s, COMPACT_LIMIT)| > keep
  }

  /** `maybeCompact` past its first test: `gone` is archived, `keep` put back. */
  function CompactPlan(meta: Meta, gone: seq<Message>, keep: seq<Message>): Program
    requires gone != []
  {
    var last := gone[|gone| - 1].id;
    var summary := BuildSummary(gone);
    Then(Archive(last),
         Then(PutMeta(meta.(watermark := last, compactionCount := meta.compactionCount + 1,
                            lastSummary := summary, flushCount := meta.compactionCount + 1)),
              Then(Clear, ReInsert(keep, AddSummary(summary, Done)))))
  }

  /** `maybeCompact`: the token count is written whether or not it goes on. */
  function AutoPlan(s: Session, keep: nat, tokens: int, threshold: int): Program {
    var stored := GetMessages(s, COMPACT_LIMIT);
    var meta := s.meta.(totalTokens := tokens);
    var cut := |stored| - keep;
    Then(PutMeta(meta),
         if Compacts(s, keep, tokens, threshold) then CompactPlan(meta, stored[..cut], stored[cut..]) else Done)
  }

  /** `runCompact`, with the text the language model returned as a parameter. */
  function ManualPlan(s: Session, summary: string): Program {
    var stored := GetMessages(s, COMPACT_LIMIT);
    if stored == [] then Done
    else
      var last := stored[|stored| - 1].id;
      var row := s.meta.(watermark := last, compactionCount := s.meta.compactionCount + 1,
                         lastSummary := summary);
      Then(Archive(last), Then(Clear, AddSummary(summary, Then(PutMeta(row), Done))))
  }

  /** `runResetSession`, which leaves the watermark as it was. */
  function ResetPlan(s: Session, stamp: string): Program {
    var stored := GetMessages(s, RESET_LIMIT);
    var row := s.meta.(compactionCount := 0, lastSummary := "");
    var rest := Then(Clear, Then(Insert("system", ResetMarker(stamp), None), Then(PutMeta(row), Done)));
    if stored == [] then rest else Then(Archive(stored[|stored| - 1].id), rest)
  }

  /** The pulse handler's `ResetSession`, which archives nothing. */
  function IdlePlan(s: Session): Program {
    Then(Clear, Then(PutMeta(s.meta.(totalTokens := 0, compactionCount := 0, lastSummary := "", watermark := 0)),
                     Done))
  }

  datatype Event =
    | Post(role: string, content: string)
    | AutoCompact(keep: nat, tokens: int, threshold: int)
    | ManualCompact(summary: string)
    | Reset(stamp: string)
    | IdleReset
    | OtherSessions(ids: nat)

  function Plan(s: Session, e: Event): Program {
    match e
    case Post(role, content) => Then(Insert(role, content, None), Done)
    case AutoCompact(keep, tokens, threshold) => AutoPlan(s, keep, tokens, threshold)
    case ManualCompact(summary) => ManualPlan(s, summary)
    case Reset(stamp) => ResetPlan(s, stamp)
    case IdleReset => IdlePlan(s)
    case OtherSessions(_) => Done
  }

  function Step(s: Session, e: Event): Session {
    if e.OtherSessions? then s.(nextId := s.nextId + e.ids) else ExecAll(s, Plan(s, e))
  }
}
