/**
 * The decision logic of the chat commands: what each command reads or
 * writes in the date store and which message it answers with. Sending,
 * embeds and logging are not modelled; a reply names the translation key
 * (and the data) the command renders. The current time, the parsing of a
 * stored date and the guild's member names are parameters.
 */
module Commands {
  import opened Wrappers
  import opened Escaping
  import opened Database
  import opened Globalization

  /** `list` shows at most this many rows. */
  const MaxListed: nat := 15
  /** `list` pads to at most this column. */
  const MaxPadding: nat := 15
  /** `list` puts at least this many spaces between a label and its date. */
  const MinGap: nat := 2
  /** Shown for a creator who is no longer a member of the guild. */
  const UnknownMember: string := "<ismeretlen>"

  /** `createMessage`'s choice: the `["since", variant]` path, the label and `|now - date|` in ms. */
  datatype SinceMessage = SinceMessage(path: Path, title: string, duration: nat)

  /** One `list/res-line`: label, padding spaces, stored date text. */
  datatype ListLine = ListLine(title: string, padding: string, date: string)

  /** What a command answers with. */
  datatype Reply =
    | NoReply                                        // returns the request: no database, or an exception was caught
    | Send(key: string)                              // a fixed translated message
    | SendTaken(creatorName: string, date: string)   // `register/err`
    | SendSince(message: SinceMessage)               // `since/res`
    | SendWhen(date: string, title: string)          // `when/res`
    | SendList(count: nat, lines: seq<ListLine>)     // `list/res-head`, the lines, `list/res-bot`

  function Min(a: int, b: int): int { if a <= b then a else b }
  function Max(a: int, b: int): int { if a >= b then a else b }

  /** `message.guild.member(id)?.displayName ?? "<ismeretlen>"`. */
  function CreatorName(members: map<string, string>, creator: string): (name: string)
    ensures creator in members ==> name == members[creator]
    ensures creator !in members ==> name == UnknownMember
  {
    if creator in members then members[creator] else UnknownMember
  }

  /**
   * `RegisterDateCommand.run`: look the label up first and add only when
   * nothing was found. Done as two sequential steps, the add cannot hit the
   * UNIQUE constraint, so the exception branch is never taken.
   */
  method RegisterDate(store: DateStore?, guild: string, title: string, date: string, author: string,
                      members: map<string, string>) returns (reply: Reply)
    requires store != null ==> store.Valid()
    modifies store
    ensures store == null ==> reply == NoReply
    ensures store != null ==> store.Valid()
    ensures store != null && old(Get(store.tables, guild, title)).Some? ==>
      var e := old(Get(store.tables, guild, title)).value;
      reply == SendTaken(CreatorName(members, e.creator), e.date) && store.tables == old(store.tables)
    ensures store != null && old(Get(store.tables, guild, title)).None? ==>
      reply == Send("register/res") && store.tables == Inserted(old(store.tables), guild, title, date, author)
  {
    if store == null {
      return NoReply;
    }
    var entry := store.GetDate(guild, title);
    if entry.Some? {
      return SendTaken(CreatorName(members, entry.value.creator), entry.value.date);
    }
    var inserted := store.AddDate(guild, title, date, author);
    if !inserted {
      return NoReply;
    }
    reply := Send("register/res");
  }

  /** `SinceCommand.createMessage`: the variant segment and the absolute difference. */
  function CreateMessage(title: string, date: int, now: int): (m: SinceMessage)
    ensures m.path.PathArray? && |m.path.segments| == 2 && m.path.segments[0] == "since"
    ensures m.path.segments[1] == "for" <==> date > now
    ensures m.path.segments[1] == "since" <==> date <= now
    ensures date > now ==> now + m.duration == date
    ensures date <= now ==> now - m.duration == date
    ensures m.title == title
  {
    SinceMessage(PathArray(["since", if date > now then "for" else "since"]), title,
                 if now >= date then now - date else date - now)
  }

  /** The duration does not tell the past from the future, and is zero only for the present. */
  lemma DurationSymmetric(title: string, now: int, k: int)
    ensures CreateMessage(title, now - k, now).duration == CreateMessage(title, now + k, now).duration
    ensures CreateMessage(title, now - k, now).duration == 0 <==> k == 0
    ensures CreateMessage(title, now, now).path == PathArray(["since", "since"])
  {
  }

  /** `SinceCommand.run`: the since/until message for a stored label, `since/err` otherwise. */
  method Since(store: DateStore?, guild: string, title: string, now: int, parseDate: string -> int)
    returns (reply: Reply)
    requires store != null ==> store.Valid()
    ensures store == null ==> reply == NoReply
    ensures store != null && Get(store.tables, guild, title).Some? ==>
      var e := Get(store.tables, guild, title).value;
      reply == SendSince(CreateMessage(e.title, parseDate(e.date), now))
    ensures store != null && Get(store.tables, guild, title).None? ==> reply == Send("since/err")
  {
    if store == null {
      return NoReply;
    }
    var entry := store.GetDate(guild, title);
    if entry.Some? {
      return SendSince(CreateMessage(entry.value.title, parseDate(entry.value.date), now));
    }
    reply := Send("since/err");
  }

  /** `RemoveCommand.run`: `remove/res` exactly when `removeDate` deleted a row. */
  method Remove(store: DateStore?, guild: string, title: string) returns (reply: Reply)
    requires store != null ==> store.Valid()
    modifies store
    ensures store == null ==> reply == NoReply
    ensures store != null ==> store.Valid() && store.tables == Removed(old(store.tables), guild, title)
    ensures store != null ==>
      reply == Send(if old(Get(store.tables, guild, title)).Some? then "remove/res" else "remove/err")
  {
    if store == null {
      return NoReply;
    }
    var deleted := store.RemoveDate(guild, title);
    if deleted {
      return Send("remove/res");
    }
    reply := Send("remove/err");
  }

  /** `WhenCommand.run`: the stored date of a label, `when/err` otherwise. */
  method When(store: DateStore?, guild: string, title: string) returns (reply: Reply)
    requires store != null ==> store.Valid()
    ensures store == null ==> reply == NoReply
    ensures store != null && Get(store.tables, guild, title).Some? ==>
      var e := Get(store.tables, guild, title).value;
      reply == SendWhen(e.date, e.title) && e.title == EscapeLabel(title)
    ensures store != null && Get(store.tables, guild, title).None? ==> reply == Send("when/err")
  {
    if store == null {
      return NoReply;
    }
    var entry := store.GetDate(guild, title);
    if entry.Some? {
      return SendWhen(entry.value.date, entry.value.title);
    }
    reply := Send("when/err");
  }

  /**
   * `dates.map(v => v.label.length).reduce((a, b) => Math.max(a, b))`, a left
   * fold; absent for no rows, where `reduce` without an initial value throws.
   */
  function LongestTitle(rows: seq<Row>): (r: Option<nat>)
    ensures r.None? <==> rows == []
    ensures r.Some? ==> forall i :: 0 <= i < |rows| ==> |rows[i].title| <= r.value
    ensures r.Some? ==> exists i :: 0 <= i < |rows| && |rows[i].title| == r.value
    decreases |rows|
  {
    if rows == [] then None
    else if |rows| == 1 then Some(|rows[0].title|)
    else
      var init := rows[..|rows| - 1];
      var longest := LongestTitle(init).value;
      assert forall i :: 0 <= i < |init| ==> rows[i] == init[i];
      Some(Max(longest, |rows[|rows| - 1].title|))
  }

  /** `Math.min(15, longest)`: the column the dates are aligned to. */
  function PaddingWidth(rows: seq<Row>): (w: Option<nat>)
    ensures w.None? <==> rows == []
    ensures w.Some? ==> w.value <= MaxPadding
    ensures w.Some? ==> forall i :: 0 <= i < |rows| ==> Min(MaxPadding, |rows[i].title|) <= w.value
    ensures w.Some? ==> exists i :: 0 <= i < |rows| && w.value == Min(MaxPadding, |rows[i].title|)
  {
    match LongestTitle(rows)
    case None => None
    case Some(longest) => Some(Min(MaxPadding, longest))
  }

  /** `Math.max(2, padding - label.length)`: the spaces after one label. */
  function Gap(width: nat, title: string): (n: nat)
    ensures n >= MinGap
    ensures |title| + MinGap <= width ==> |title| + n == width
    ensures |title| + MinGap > width ==> n == MinGap
  {
    Max(MinGap, width - |title|)
  }

  /** `" ".repeat(n)`. */
  function Spaces(n: nat): (s: string)
    ensures |s| == n && forall k :: 0 <= k < n ==> s[k] == ' '
  {
    seq(n, _ => ' ')
  }

  /** The lines of the first `min(length, 15)` rows, in storage order. */
  function ListLines(rows: seq<Row>, width: nat): (lines: seq<ListLine>)
    ensures |lines| == Min(|rows|, MaxListed) <= MaxListed
    ensures forall i :: 0 <= i < |lines| ==>
      lines[i].title == rows[i].title && lines[i].date == rows[i].date && |lines[i].padding| == Gap(width, rows[i].title)
    ensures forall i, k :: 0 <= i < |lines| && 0 <= k < |lines[i].padding| ==> lines[i].padding[k] == ' '
  {
    var n := Min(|rows|, MaxListed);
    seq(n, i requires 0 <= i < n => ListLine(rows[i].title, Spaces(Gap(width, rows[i].title)), rows[i].date))
  }

  /**
   * What `ListCommand.run` answers for the guild's rows. The width is computed
   * before the length check, so with no rows `reduce` throws and the exception
   * is caught: the `list/err` branch cannot be reached.
   */
  function ListReply(rows: seq<Row>): Reply
  {
    match PaddingWidth(rows)
    case None => NoReply
    case Some(width) =>
      if |rows| > 0 then SendList(|rows|, ListLines(rows, width)) else Send("list/err")
  }

  /** `list` never answers `list/err`; it answers nothing exactly when the guild has no rows. */
  lemma ListNeverErr(rows: seq<Row>)
    ensures ListReply(rows) != Send("list/err")
    ensures ListReply(rows) == NoReply <==> rows == []
    ensures rows != [] ==> ListReply(rows).SendList? && ListReply(rows).count == |rows|
  {
  }

  /**
   * The rendered list: at most 15 lines, the first rows in storage order,
   * at least two spaces after each label, and every label shorter than the
   * width by two or more ends at the same column.
   */
  lemma ListLayout(rows: seq<Row>)
    requires rows != []
    ensures var r := ListReply(rows);
      var width := PaddingWidth(rows).value;
      && r.SendList?
      && |r.lines| == Min(|rows|, MaxListed) <= MaxListed
      && forall i :: 0 <= i < |r.lines| ==>
        && r.lines[i].title == rows[i].title
        && r.lines[i].date == rows[i].date
        && MinGap <= |r.lines[i].padding|
        && (forall k :: 0 <= k < |r.lines[i].padding| ==> r.lines[i].padding[k] == ' ')
        && (|rows[i].title| + MinGap <= width ==> |r.lines[i].title| + |r.lines[i].padding| == width)
  {
  }

  /** `ListCommand.run`: read the guild's rows, compute the width, then render or give up. */
  method List(store: DateStore?, guild: string) returns (reply: Reply)
    ensures store == null ==> reply == NoReply
    ensures store != null ==> reply == ListReply(Rows(store.tables, guild))
  {
    if store == null {
      return NoReply;
    }
    var dates := store.GetDates(guild);
    var padding := PaddingWidth(dates);
    if padding.None? {
      return NoReply;
    }
    if |dates| > 0 {
      return SendList(|dates|, ListLines(dates, padding.value));
    }
    reply := Send("list/err");
  }
}
