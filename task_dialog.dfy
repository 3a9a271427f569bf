/**
 * The task dialog: the form it opens with, how the comma-separated tags
 * field becomes a list of tags and back, and the check made before a task
 * is saved.
 */
module TaskDialog {
  import Text
  import Seqs
  import opened Wrappers
  import opened Tasks

  /** The form's fields; the tags are edited as one comma-separated string. */
  datatype Form = Form(title: string, description: string, priority: Priority, tags: string, date: string)

  /** What is sent to save a task: the form with its tags parsed into a list. */
  datatype Payload = Payload(title: string, description: string, priority: Priority, tags: seq<string>, date: string)

  // ------------------------------------------------------------------ tags

  /** Each piece of the split, trimmed. */
  function TrimEach(parts: seq<string>): (r: seq<string>)
    ensures |r| == |parts|
    ensures forall k :: 0 <= k < |r| ==> r[k] == Text.Trim(parts[k])
  {
    if parts == [] then [] else [Text.Trim(parts[0])] + TrimEach(parts[1..])
  }

  predicate NonEmpty(s: string) { s != [] }

  /** A tag as parsing produces it: not empty, no surrounding whitespace, no comma. */
  predicate IsTag(t: string) {
    t != [] && Text.IsTrimmed(t) && ',' !in t
  }

  /** The tags of a list of split pieces: each trimmed, the empty ones dropped. */
  function Clean(parts: seq<string>): seq<string> {
    Seqs.Filter(NonEmpty, TrimEach(parts))
  }

  /** The tags of the field: split at every comma, trim each piece, drop the empty ones. */
  function ParseTags(s: string): (tags: seq<string>)
    ensures forall k :: 0 <= k < |tags| ==> IsTag(tags[k])
  {
    CleanIsTags(Text.Split(s, ','));
    Clean(Text.Split(s, ','))
  }

  /** The field shown for a list of tags: the tags separated by a comma and a space. */
  function JoinTags(tags: seq<string>): string {
    Text.Join(tags, ", ")
  }

  lemma CleanCons(x: string, pieces: seq<string>)
    ensures Clean([x] + pieces) == (if Text.Trim(x) == [] then [] else [Text.Trim(x)]) + Clean(pieces)
  {
    var p := [x] + pieces;
    assert p[1..] == pieces;
    assert TrimEach(p) == [Text.Trim(x)] + TrimEach(pieces);
    assert ([Text.Trim(x)] + TrimEach(pieces))[1..] == TrimEach(pieces);
  }

  lemma JoinTagsCons(tags: seq<string>)
    requires |tags| > 1
    ensures JoinTags(tags) == tags[0] + [','] + ([' '] + JoinTags(tags[1..]))
  {
    assert ", " == [',', ' '];
  }

  /** The pieces after the first: each tag with the space that followed its comma. */
  function Spaced(tags: seq<string>): (r: seq<string>)
    ensures |r| == |tags|
    ensures forall k :: 0 <= k < |r| ==> r[k] == [' '] + tags[k]
  {
    if tags == [] then [] else [[' '] + tags[0]] + Spaced(tags[1..])
  }

  /** Splitting the joined field (after a comma-free prefix) at the commas gives the spaced tags. */
  lemma {:induction false} SplitJoined(p: string, tags: seq<string>)
    requires ',' !in p
    requires tags != []
    requires forall k :: 0 <= k < |tags| ==> ',' !in tags[k]
    ensures Text.Split(p + JoinTags(tags), ',') == [p + tags[0]] + Spaced(tags[1..])
    decreases |tags|
  {
    var t := tags[0];
    if |tags| == 1 {
      assert p + JoinTags(tags) == p + t;
      Text.SplitNone(p + t, ',');
    } else {
      var tail := tags[1..];
      var rest := [' '] + JoinTags(tail);
      JoinTagsCons(tags);
      assert p + JoinTags(tags) == (p + t) + [','] + rest;
      Text.SplitFirst(p + t, ',', rest);
      assert forall k :: 0 <= k < |tail| ==> ',' !in tail[k];
      SplitJoined([' '], tail);
      assert Spaced(tail) == [[' '] + tail[0]] + Spaced(tail[1..]);
    }
  }

  /** A tag after one space, as it sits in the joined field, trims back to the tag. */
  lemma TrimSpacedTag(t: string)
    requires IsTag(t)
    ensures Text.Trim([' '] + t) == t
  {
    Text.TrimLeadingSpaces([' '], t);
  }

  /** A piece that trims to a tag contributes that tag. */
  lemma CleanTagged(x: string, t: string, pieces: seq<string>)
    requires Text.Trim(x) == t && t != []
    ensures Clean([x] + pieces) == [t] + Clean(pieces)
  {
    CleanCons(x, pieces);
  }

  /** Trimming the spaced tags and dropping empty pieces gives the tags. */
  lemma {:induction false} CleanSpaced(tags: seq<string>)
    requires forall k :: 0 <= k < |tags| ==> IsTag(tags[k])
    ensures Clean(Spaced(tags)) == tags
  {
    if tags != [] {
      var t, tail := tags[0], tags[1..];
      var x := [' '] + t;
      assert Spaced(tags) == [x] + Spaced(tail);
      assert Text.Trim(x) == t by {
        TrimSpacedTag(t);
      }
      CleanTagged(x, t, Spaced(tail));
      CleanSpaced(tail);
      assert tags == [t] + tail;
    }
  }

  /** Every piece of a split at commas, cleaned, is a tag. */
  lemma CleanIsTags(parts: seq<string>)
    requires forall k :: 0 <= k < |parts| ==> ',' !in parts[k]
    ensures forall k :: 0 <= k < |Clean(parts)| ==> IsTag(Clean(parts)[k])
  {
    var trimmed := TrimEach(parts);
    forall k | 0 <= k < |trimmed| ensures TagShaped(trimmed[k]) {
      Text.TrimKeepsOut(parts[k], ',');
    }
    Seqs.FilterKeeps(NonEmpty, TagShaped, trimmed);
  }

  /** A tag apart from being non-empty: trimmed and without a comma. */
  predicate TagShaped(t: string) {
    Text.IsTrimmed(t) && ',' !in t
  }

  /** Serialising a list of well-formed tags and parsing the field gives the same list. */
  lemma {:induction false} ParseJoinTags(tags: seq<string>)
    requires forall k :: 0 <= k < |tags| ==> IsTag(tags[k])
    ensures ParseTags(JoinTags(tags)) == tags
  {
    var field := JoinTags(tags);
    assert ParseTags(field) == Clean(Text.Split(field, ','));
    if tags == [] {
      assert field == [];
      CleanCons([], []);
    } else {
      var t := tags[0];
      var pieces := Spaced(tags[1..]);
      assert Text.Split(field, ',') == [t] + pieces by {
        SplitJoined([], tags);
        assert [] + field == field && [] + t == t;
      }
      assert Text.Trim(t) == t by {
        Text.TrimOfTrimmed(t);
      }
      CleanTagged(t, t, pieces);
      CleanSpaced(tags[1..]);
      assert tags == [t] + tags[1..];
    }
  }

  /** Parsing normalises: a parsed list survives being shown in the field and saved again. */
  lemma ParseTagsIdempotent(s: string)
    ensures ParseTags(JoinTags(ParseTags(s))) == ParseTags(s)
  {
    ParseJoinTags(ParseTags(s));
  }

  // ------------------------------------------------------------------ form

  /** The form for a new task: medium priority, every text field empty, dated `today`. */
  function NewForm(today: string): (f: Form)
    ensures f.title == [] && f.description == [] && f.tags == []
    ensures f.priority == Medium && f.date == today
  {
    Form([], [], Medium, [], today)
  }

  /**
   * The form the dialog opens with: a task being edited fills it (a missing
   * description shows as empty, the tags as their joined form); otherwise
   * the new-task form. The date of "today" is a parameter.
   */
  function FormFor(task: Option<Task>, today: string): (f: Form)
    ensures task.None? ==> f == NewForm(today)
    ensures task.Some? ==>
      && f.title == task.value.title
      && f.priority == task.value.priority
      && f.date == task.value.date
      && f.tags == JoinTags(task.value.tags)
      && f.description == (if task.value.description.Some? then task.value.description.value else [])
  {
    match task
    case None => NewForm(today)
    case Some(t) =>
      Form(t.title, if t.description.Some? then t.description.value else [], t.priority, JoinTags(t.tags), t.date)
  }

  // ------------------------------------------------------------------ submit

  /** The message shown when the title is blank. */
  const TitleRequired := "Title is required"

  /**
   * Submitting the form: refused when the title is empty or only
   * whitespace; otherwise the form as it stands (title untrimmed) with its
   * tags parsed.
   */
  function Submit(form: Form): (r: Result<Payload, string>)
    ensures r.Err? <==> forall k :: 0 <= k < |form.title| ==> Text.IsSpace(form.title[k])
    ensures r.Err? ==> r.error == TitleRequired
    ensures r.Ok? ==> r.value.tags == ParseTags(form.tags)
    ensures r.Ok? ==>
      r.value == Payload(form.title, form.description, form.priority, ParseTags(form.tags), form.date)
  {
    if Text.Trim(form.title) == [] then Err(TitleRequired)
    else Ok(Payload(form.title, form.description, form.priority, ParseTags(form.tags), form.date))
  }

  /** A new task cannot be saved before a title is typed. */
  lemma NewFormNeedsTitle(today: string)
    ensures Submit(FormFor(None, today)).Err?
  {
  }

  /**
   * Opening an existing task and saving it unchanged sends its own title,
   * priority, date and tags back (a missing description becomes empty),
   * provided its title is not blank and its tags are as parsing makes them.
   */
  lemma SaveUnchangedEdit(task: Task, today: string)
    requires exists k :: 0 <= k < |task.title| && !Text.IsSpace(task.title[k])
    requires forall k :: 0 <= k < |task.tags| ==> IsTag(task.tags[k])
    ensures Submit(FormFor(Some(task), today)) ==
      Ok(Payload(task.title, if task.description.Some? then task.description.value else [],
                      task.priority, task.tags, task.date))
  {
    ParseJoinTags(task.tags);
  }
}
