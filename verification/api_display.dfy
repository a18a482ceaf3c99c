/**
 The reply renderer of the administrative command-line client (`display`).

 A reply is a C string of records separated by `|`; a record is a list of
 fields separated by `,`; a field is `key=value`, split on its first `=`, or
 a bare value. `display` prints, for every non-empty record, a header
 `[name] =>` and `(` when the record's first field is non-empty, then one
 line per non-empty field, named by its key or numbered by its position,
 and finally `)`. The printed text is modelled as a sequence of `Line`s.
 */
module ApiDisplay {
  import opened Wrappers
  import opened CStrings

  const SEPARATOR: char := '|'
  const COMMA: char := ','
  const EQ: char := '='

  /** How a field line is labelled: by its key, or by its 0-based position. */
  datatype Label = Key(name: string) | Position(index: nat)

  /** One printed line: `[name] =>`, `(`, `   [label] => value`, `)`. */
  datatype Line = Header(name: string) | Open | Field(title: Label, value: string) | Close

  /** A field cut at its first `=`; `value` is None when there is no `=`. */
  datatype Pair = Pair(key: string, value: Option<string>)

  function SplitPair(field: string): (p: Pair)
    ensures p.value.None? <==> EQ !in field
    ensures p.value.None? ==> p.key == field
    ensures p.value.Some? ==> EQ !in p.key && p.key + [EQ] + p.value.value == field
  {
    match Find(field, EQ)
    case None => Pair(field, None)
    case Some(i) =>
      assert field == field[..i] + [EQ] + field[i + 1..];
      Pair(field[..i], Some(field[i + 1..]))
  }

  /** The header name: the key, followed by the value only when the value
      starts with a decimal digit (so `GPU=0` heads its record as `GPU0`). */
  function HeaderName(p: Pair): string
  {
    match p.value
    case Some(v) => if |v| > 0 && IsDigit(v[0]) then p.key + v else p.key
    case None => p.key
  }

  /** The line printed for the non-empty field at position `index`. */
  function FieldEntry(field: string, index: nat): (line: Line)
    ensures line.Field?
    ensures EQ !in field ==> line == Field(Position(index), field)
    ensures EQ in field ==>
              && line.title.Key?
              && EQ !in line.title.name
              && line.title.name + [EQ] + line.value == field
  {
    var p := SplitPair(field);
    match p.value
    case Some(v) => Field(Key(p.key), v)
    case None => Field(Position(index), field)
  }

  /** Output for one field: nothing when empty; the header and `(` before the
      first field of a record; then the field's own line. */
  function FieldLines(field: string, index: nat): seq<Line>
  {
    if field == "" then []
    else
      (if index == 0 then [Header(HeaderName(SplitPair(field))), Open] else [])
      + [FieldEntry(field, index)]
  }

  /** Output for the fields of a record, the first of them at position `index`. */
  function FieldsLines(fields: seq<string>, index: nat): seq<Line>
    decreases |fields|
  {
    if |fields| == 0 then []
    else FieldLines(fields[0], index) + FieldsLines(fields[1..], index + 1)
  }

  /** Output for one record: nothing when empty, otherwise its fields and `)`. */
  function RecordLines(record: string): seq<Line>
  {
    if record == "" then []
    else FieldsLines(Fields(record), 0) + [Close]
  }

  function RecordsLines(records: seq<string>): seq<Line>
    decreases |records|
  {
    if |records| == 0 then []
    else RecordLines(records[0]) + RecordsLines(records[1..])
  }

  /** `display(buf)` on the received buffer: the records of its C string. */
  function Display(reply: string): seq<Line>
  {
    RecordsLines(Records(reply))
  }

  /** The records of a reply: its C string cut at every `|`. */
  function Records(reply: string): seq<string>
  {
    Split(CString(reply), SEPARATOR)
  }

  /** The fields of a record: the record cut at every `,`. */
  function Fields(record: string): seq<string>
  {
    Split(record, COMMA)
  }

  // ---------------------------------------------------------------------
  // Counting

  predicate IsHeader(l: Line) { l.Header? }
  predicate IsOpen(l: Line) { l.Open? }
  predicate IsField(l: Line) { l.Field? }
  predicate IsClose(l: Line) { l.Close? }

  function CountWhere(lines: seq<Line>, p: Line -> bool): nat
    decreases |lines|
  {
    if |lines| == 0 then 0
    else (if p(lines[0]) then 1 else 0) + CountWhere(lines[1..], p)
  }

  function CountNonEmpty(parts: seq<string>): nat
    decreases |parts|
  {
    if |parts| == 0 then 0
    else (if parts[0] == "" then 0 else 1) + CountNonEmpty(parts[1..])
  }

  lemma {:induction false} CountWhereAppend(a: seq<Line>, b: seq<Line>, p: Line -> bool)
    ensures CountWhere(a + b, p) == CountWhere(a, p) + CountWhere(b, p)
    decreases |a|
  {
    if |a| == 0 {
      assert a + b == b;
    } else {
      assert (a + b)[0] == a[0];
      assert (a + b)[1..] == a[1..] + b;
      CountWhereAppend(a[1..], b, p);
    }
  }

  lemma {:induction false} CountWhereNone(lines: seq<Line>, p: Line -> bool)
    requires forall l :: l in lines ==> !p(l)
    ensures CountWhere(lines, p) == 0
    decreases |lines|
  {
    if |lines| > 0 {
      assert lines[0] in lines;
      assert forall l :: l in lines[1..] ==> l in lines;
      CountWhereNone(lines[1..], p);
    }
  }

  /** The lines satisfying `p`, in their order. */
  function Select(lines: seq<Line>, p: Line -> bool): seq<Line>
    decreases |lines|
  {
    if |lines| == 0 then []
    else (if p(lines[0]) then [lines[0]] else []) + Select(lines[1..], p)
  }

  lemma {:induction false} SelectAppend(a: seq<Line>, b: seq<Line>, p: Line -> bool)
    ensures Select(a + b, p) == Select(a, p) + Select(b, p)
    decreases |a|
  {
    if |a| == 0 {
      assert a + b == b;
    } else {
      var first: seq<Line> := if p(a[0]) then [a[0]] else [];
      assert (a + b)[0] == a[0];
      assert (a + b)[1..] == a[1..] + b;
      assert Select(a + b, p) == first + Select(a[1..] + b, p);
      assert Select(a, p) == first + Select(a[1..], p);
      SelectAppend(a[1..], b, p);
      assert first + (Select(a[1..], p) + Select(b, p)) == (first + Select(a[1..], p)) + Select(b, p);
    }
  }

  /** The entries of the non-empty fields in field order, the first field at
      position `index`: what a record's field lines should be, one per
      non-empty field, in order. */
  function Entries(fields: seq<string>, index: nat): (r: seq<Line>)
    ensures |r| == CountNonEmpty(fields)
    decreases |fields|
  {
    if |fields| == 0 then []
    else (if fields[0] == "" then [] else [FieldEntry(fields[0], index)]) + Entries(fields[1..], index + 1)
  }

  // ---------------------------------------------------------------------
  // Shape of the output for the fields of one record

  /** Field output never contains `)`; past position 0 it holds field lines only. */
  lemma {:induction false} FieldsLinesShape(fields: seq<string>, index: nat)
    ensures Close !in FieldsLines(fields, index)
    ensures index > 0 ==> forall l :: l in FieldsLines(fields, index) ==> l.Field?
    decreases |fields|
  {
    if |fields| > 0 {
      FieldsLinesShape(fields[1..], index + 1);
    }
  }

  /** `line` is the entry of some non-empty field among `fields`, numbered from `index`. */
  predicate EntryOf(fields: seq<string>, index: nat, line: Line)
  {
    exists k :: 0 <= k < |fields| && fields[k] != "" && line == FieldEntry(fields[k], index + k)
  }

  /** Every non-empty field has its entry in the output, labelled with its
      position among ALL fields. */
  lemma {:induction false} FieldsLinesContain(fields: seq<string>, index: nat)
    ensures forall k :: 0 <= k < |fields| && fields[k] != "" ==>
              FieldEntry(fields[k], index + k) in FieldsLines(fields, index)
    decreases |fields|
  {
    if |fields| > 0 {
      var head: seq<Line> := FieldLines(fields[0], index);
      var tail := FieldsLines(fields[1..], index + 1);
      assert FieldsLines(fields, index) == head + tail;
      FieldsLinesContain(fields[1..], index + 1);
      forall k | 0 <= k < |fields| && fields[k] != ""
        ensures FieldEntry(fields[k], index + k) in head + tail
      {
        if k == 0 {
          assert head[|head| - 1] == FieldEntry(fields[0], index);
        } else {
          assert fields[1..][k - 1] == fields[k];
          assert FieldEntry(fields[1..][k - 1], index + 1 + (k - 1)) in tail;
        }
      }
    }
  }

  /** The only field line one field contributes is its entry. */
  lemma FieldLinesEntry(field: string, index: nat)
    ensures forall l :: l in FieldLines(field, index) && l.Field? ==> field != "" && l == FieldEntry(field, index)
  {
  }

  /** An entry of the later fields is an entry of the whole list. */
  lemma EntryOfLater(fields: seq<string>, index: nat, l: Line)
    requires |fields| > 0 && EntryOf(fields[1..], index + 1, l)
    ensures EntryOf(fields, index, l)
  {
    var k :| 0 <= k < |fields[1..]| && fields[1..][k] != "" && l == FieldEntry(fields[1..][k], index + 1 + k);
    assert fields[k + 1] == fields[1..][k];
  }

  /** No field line appears but the entry of a non-empty field. */
  lemma {:induction false} FieldsLinesOnlyEntries(fields: seq<string>, index: nat)
    ensures forall l :: l in FieldsLines(fields, index) && l.Field? ==> EntryOf(fields, index, l)
    decreases |fields|
  {
    if |fields| > 0 {
      var head: seq<Line> := FieldLines(fields[0], index);
      var tail := FieldsLines(fields[1..], index + 1);
      FieldLinesEntry(fields[0], index);
      FieldsLinesOnlyEntries(fields[1..], index + 1);
      forall l | l in head + tail && l.Field?
        ensures EntryOf(fields, index, l)
      {
        if l in head {
          assert l == FieldEntry(fields[0], index + 0);
        } else {
          EntryOfLater(fields, index, l);
        }
      }
    }
  }

  /** One field line per non-empty field. */
  lemma {:induction false} FieldsLinesCount(fields: seq<string>, index: nat)
    ensures CountWhere(FieldsLines(fields, index), IsField) == CountNonEmpty(fields)
    decreases |fields|
  {
    if |fields| > 0 {
      FieldsLinesCount(fields[1..], index + 1);
      CountWhereAppend(FieldLines(fields[0], index), FieldsLines(fields[1..], index + 1), IsField);
      FieldLinesCounts(fields[0], index);
    }
  }

  lemma CountWhereTriple(a: Line, b: Line, c: Line, p: Line -> bool)
    ensures CountWhere([a, b, c], p) == CountWhere([a], p) + CountWhere([b], p) + CountWhere([c], p)
  {
    assert [a, b, c][1..] == [b, c];
    assert [b, c][1..] == [c];
  }

  /** What one field contributes: a field line when non-empty, preceded by
      the header and `(` only at position 0. */
  lemma FieldLinesCounts(field: string, index: nat)
    ensures CountWhere(FieldLines(field, index), IsField) == (if field == "" then 0 else 1)
    ensures CountWhere(FieldLines(field, index), IsHeader) == (if field != "" && index == 0 then 1 else 0)
    ensures CountWhere(FieldLines(field, index), IsOpen) == (if field != "" && index == 0 then 1 else 0)
    ensures CountWhere(FieldLines(field, index), IsClose) == 0
  {
    var lines := FieldLines(field, index);
    if field != "" {
      var e := FieldEntry(field, index);
      if index == 0 {
        var h := Header(HeaderName(SplitPair(field)));
        assert lines == [h, Open, e];
        CountWhereTriple(h, Open, e, IsField);
        CountWhereTriple(h, Open, e, IsHeader);
        CountWhereTriple(h, Open, e, IsOpen);
        CountWhereTriple(h, Open, e, IsClose);
      } else {
        assert lines == [e];
      }
    }
  }

  /** The field line one field contributes, if any. */
  lemma FieldLinesSelect(field: string, index: nat)
    ensures Select(FieldLines(field, index), IsField) == (if field == "" then [] else [FieldEntry(field, index)])
  {
    if field != "" {
      var e := FieldEntry(field, index);
      if index == 0 {
        var h := Header(HeaderName(SplitPair(field)));
        assert FieldLines(field, index) == [h, Open, e];
        assert [h, Open, e][1..] == [Open, e];
        assert [Open, e][1..] == [e];
        assert [e][1..] == [];
        assert Select([e], IsField) == [e];
        assert Select([Open, e], IsField) == Select([e], IsField);
        assert Select([h, Open, e], IsField) == Select([Open, e], IsField);
      } else {
        assert FieldLines(field, index) == [e];
        assert [e][1..] == [];
      }
    }
  }

  /** The field lines printed for a list of fields are exactly the entries
      of its non-empty fields, in field order and each once. */
  lemma {:induction false} FieldsLinesEntries(fields: seq<string>, index: nat)
    ensures Select(FieldsLines(fields, index), IsField) == Entries(fields, index)
    decreases |fields|
  {
    if |fields| > 0 {
      SelectAppend(FieldLines(fields[0], index), FieldsLines(fields[1..], index + 1), IsField);
      FieldLinesSelect(fields[0], index);
      FieldsLinesEntries(fields[1..], index + 1);
    }
  }

  // ---------------------------------------------------------------------
  // Properties of one record

  /** An empty record prints nothing. A non-empty record ends with `)` and
      holds exactly one; it has one header and one `(` when its first field is
      non-empty, at its start, and none otherwise. */
  lemma RecordShape(record: string)
    ensures record == "" ==> RecordLines(record) == []
    ensures record != "" ==>
              var lines := RecordLines(record);
              var first := Fields(record)[0];
              && |lines| > 0
              && lines[|lines| - 1] == Close
              && CountWhere(lines, IsClose) == 1
              && CountWhere(lines, IsHeader) == (if first != "" then 1 else 0)
              && CountWhere(lines, IsOpen) == (if first != "" then 1 else 0)
              && (first != "" ==> lines[0] == Header(HeaderName(SplitPair(first))) && lines[1] == Open)
  {
    if record != "" {
      var fields := Fields(record);
      var head: seq<Line> := FieldLines(fields[0], 0);
      var tail := FieldsLines(fields[1..], 1);
      var lines := head + tail + [Close];
      assert RecordLines(record) == lines;
      FieldsLinesShape(fields[1..], 1);
      CountWhereNone(tail, IsClose);
      CountWhereNone(tail, IsHeader);
      CountWhereNone(tail, IsOpen);
      FieldLinesCounts(fields[0], 0);
      CountWhereAppend(head, tail, IsClose);
      CountWhereAppend(head + tail, [Close], IsClose);
      CountWhereAppend(head, tail, IsHeader);
      CountWhereAppend(head + tail, [Close], IsHeader);
      CountWhereAppend(head, tail, IsOpen);
      CountWhereAppend(head + tail, [Close], IsOpen);
    }
  }

  /** Every non-empty field of a record is printed, labelled by its key or by
      its position counting empty fields too; no other field line appears,
      and there is one field line per non-empty field. */
  lemma RecordFields(record: string)
    ensures forall k :: 0 <= k < |Fields(record)| && Fields(record)[k] != "" ==>
              FieldEntry(Fields(record)[k], k) in RecordLines(record)
    ensures forall l :: l in RecordLines(record) && l.Field? ==> EntryOf(Fields(record), 0, l)
    ensures CountWhere(RecordLines(record), IsField) == CountNonEmpty(Fields(record))
    ensures Select(RecordLines(record), IsField) == Entries(Fields(record), 0)
  {
    var fields := Fields(record);
    FieldsLinesContain(fields, 0);
    FieldsLinesOnlyEntries(fields, 0);
    FieldsLinesCount(fields, 0);
    FieldsLinesEntries(fields, 0);
    if record != "" {
      CountWhereAppend(FieldsLines(fields, 0), [Close], IsField);
      SelectAppend(FieldsLines(fields, 0), [Close], IsField);
      assert Select([Close], IsField) == [];
      assert forall k :: 0 <= k < |fields| && fields[k] != "" ==> FieldEntry(fields[k], 0 + k) in FieldsLines(fields, 0);
    } else {
      SplitJoin([""], COMMA);
      assert fields == [""];
    }
  }

  // ---------------------------------------------------------------------
  // Properties of a whole reply

  lemma {:induction false} RecordsLinesAppend(a: seq<string>, b: seq<string>)
    ensures RecordsLines(a + b) == RecordsLines(a) + RecordsLines(b)
    decreases |a|
  {
    if |a| == 0 {
      assert a + b == b;
    } else {
      assert (a + b)[0] == a[0];
      assert (a + b)[1..] == a[1..] + b;
      RecordsLinesAppend(a[1..], b);
    }
  }

  /** A NUL-free prefix does not change where the C string ends. */
  lemma CStringAfterPrefix(a: string, b: string)
    requires NUL !in a
    ensures CString(a + b) == a + CString(b)
  {
    var c := CString(b);
    if NUL in b {
      assert |c| < |b|;
      assert (a + b)[..|a| + |c|] == a + c;
      FindAt(a + b, NUL, |a| + |c|);
    } else {
      assert Find(a + b, NUL).None?;
    }
  }

  /** The reply `a|b`, with `a` free of `|` and NUL, prints record `a` and then
      the reply `b`. */
  lemma DisplayConcat(a: string, b: string)
    requires SEPARATOR !in a && NUL !in a
    ensures Display(a + [SEPARATOR] + b) == RecordLines(a) + Display(b)
  {
    CStringAfterPrefix(a + [SEPARATOR], b);
    SplitAfterPrefix(a, CString(b), SEPARATOR);
    var rest := Split(CString(b), SEPARATOR);
    assert ([a] + rest)[0] == a;
    assert ([a] + rest)[1..] == rest;
  }

  /** A trailing separator, as the server always sends, changes nothing. */
  lemma {:induction false} DisplayTrailingSeparator(reply: string)
    ensures Display(reply + [SEPARATOR]) == Display(reply)
  {
    var c := CString(reply);
    if NUL in reply {
      assert |c| < |reply|;
      assert (reply + [SEPARATOR])[..|c|] == c;
      FindAt(reply + [SEPARATOR], NUL, |c|);
    } else {
      assert Find(reply + [SEPARATOR], NUL).None?;
      SplitTrailingSeparator(reply, SEPARATOR);
      RecordsLinesAppend(Split(reply, SEPARATOR), [""]);
      assert RecordsLines([""]) == [];
    }
  }

  /** The output for a list of records is the output of each record in turn,
      so record `r` appears in it. */
  lemma {:induction false} RecordsLinesHasRecord(records: seq<string>, r: nat)
    requires r < |records|
    ensures forall l :: l in RecordLines(records[r]) ==> l in RecordsLines(records)
  {
    var pre, post := records[..r], records[r..];
    assert records == pre + post;
    RecordsLinesAppend(pre, post);
    assert post[0] == records[r];
    assert RecordsLines(post) == RecordLines(records[r]) + RecordsLines(post[1..]);
  }

  /** Every non-empty field of every record of the reply is printed. */
  lemma DisplayShowsField(reply: string, r: nat, k: nat)
    requires r < |Records(reply)|
    requires k < |Fields(Records(reply)[r])|
    requires Fields(Records(reply)[r])[k] != ""
    ensures FieldEntry(Fields(Records(reply)[r])[k], k) in Display(reply)
  {
    RecordFields(Records(reply)[r]);
    RecordsLinesHasRecord(Records(reply), r);
  }

  /** `line` is printed for some non-empty field of some record. */
  predicate PrintedFromSomeRecord(records: seq<string>, line: Line)
  {
    exists r :: 0 <= r < |records| && EntryOf(Fields(records[r]), 0, line)
  }

  /** Conversely, every field line printed comes from a non-empty field of
      some record, labelled as that field's entry. */
  lemma {:induction false} RecordsLinesOnlyEntries(records: seq<string>)
    ensures forall l :: l in RecordsLines(records) && l.Field? ==> PrintedFromSomeRecord(records, l)
    decreases |records|
  {
    if |records| > 0 {
      var head: seq<Line> := RecordLines(records[0]);
      var tail := RecordsLines(records[1..]);
      RecordFields(records[0]);
      RecordsLinesOnlyEntries(records[1..]);
      forall l | l in head + tail && l.Field?
        ensures PrintedFromSomeRecord(records, l)
      {
        if l in head {
          assert EntryOf(Fields(records[0]), 0, l);
        } else {
          var r :| 0 <= r < |records[1..]| && EntryOf(Fields(records[1..][r]), 0, l);
          assert records[1..][r] == records[r + 1];
        }
      }
    }
  }

  /** One `)` per non-empty record. */
  lemma {:induction false} RecordsLinesCloses(records: seq<string>)
    ensures CountWhere(RecordsLines(records), IsClose) == CountNonEmpty(records)
    decreases |records|
  {
    if |records| > 0 {
      RecordShape(records[0]);
      RecordsLinesCloses(records[1..]);
      CountWhereAppend(RecordLines(records[0]), RecordsLines(records[1..]), IsClose);
    }
  }

  /** The printed field lines of a reply are exactly the entries of the
      non-empty fields of its records, and `)` closes each non-empty record once. */
  lemma DisplayFields(reply: string)
    ensures forall l :: l in Display(reply) && l.Field? ==> PrintedFromSomeRecord(Records(reply), l)
    ensures CountWhere(Display(reply), IsClose) == CountNonEmpty(Records(reply))
  {
    RecordsLinesOnlyEntries(Records(reply));
    RecordsLinesCloses(Records(reply));
  }

  /** A field `key=value` with no `=` in its key splits into that key and value. */
  lemma SplitPairOf(field: string, key: string, value: string)
    requires EQ !in key && field == key + [EQ] + value
    ensures SplitPair(field) == Pair(key, Some(value))
  {
    assert field[..|key|] == key;
    FindAt(field, EQ, |key|);
    assert field[|key| + 1..] == value;
  }

  /** A counter sent as `name=value` in any record of the reply is printed
      under its name with its whole value, whatever the other fields hold
      (so `Accepted=10` yields `[Accepted] => 10`). */
  lemma DisplayShowsNamedField(reply: string, r: nat, k: nat, name: string, value: string)
    requires r < |Records(reply)| && k < |Fields(Records(reply)[r])|
    requires Fields(Records(reply)[r])[k] == name + [EQ] + value
    requires EQ !in name
    ensures Field(Key(name), value) in Display(reply)
  {
    SplitPairOf(name + [EQ] + value, name, value);
    DisplayShowsField(reply, r, k);
  }

  /** A field without `=` is printed under its position in the record. */
  lemma DisplayShowsBareField(reply: string, r: nat, k: nat)
    requires r < |Records(reply)| && k < |Fields(Records(reply)[r])|
    requires Fields(Records(reply)[r])[k] != "" && EQ !in Fields(Records(reply)[r])[k]
    ensures Field(Position(k), Fields(Records(reply)[r])[k]) in Display(reply)
  {
    DisplayShowsField(reply, r, k);
  }

  /** The header of a record whose first field is `key=value` is the key,
      with the value appended only when it starts with a decimal digit
      (`GPU=0` heads its record as `GPU0`, `STATUS=S` as `STATUS`); a first
      field without `=` is the header as a whole. */
  lemma RecordHeader(record: string, key: string, value: string)
    requires record != ""
    ensures Fields(record)[0] == key + [EQ] + value && EQ !in key ==>
              RecordLines(record)[0] == Header(if |value| > 0 && IsDigit(value[0]) then key + value else key)
    ensures Fields(record)[0] != "" && EQ !in Fields(record)[0] ==>
              RecordLines(record)[0] == Header(Fields(record)[0])
  {
    RecordShape(record);
    if Fields(record)[0] == key + [EQ] + value && EQ !in key {
      SplitPairOf(Fields(record)[0], key, value);
    }
  }

  // ---------------------------------------------------------------------
  // The loops of `display`

  /** What is still to be printed when the outer loop stands at `buf`. */
  function PendingRecords(buf: Option<string>): seq<Line>
  {
    match buf
    case None => []
    case Some(s) => RecordsLines(Split(s, SEPARATOR))
  }

  /** What is still to be printed when the inner loop stands at `item`, the
      field at position `itemcount`. */
  function PendingFields(item: Option<string>, itemcount: nat): seq<Line>
  {
    match item
    case None => []
    case Some(s) => FieldsLines(Fields(s), itemcount)
  }

  /** Cutting at the first separator, as `strchr` plus the NUL store do:
      the text before it, and the rest after it when there is one. */
  function CutAt(s: string, sep: char): (r: (string, Option<string>))
    ensures Split(s, sep) == [r.0] + (if r.1.Some? then Split(r.1.value, sep) else [])
    ensures r.1.Some? ==> |r.1.value| < |s|
  {
    match Find(s, sep)
    case None => (s, None)
    case Some(i) => (s[..i], Some(s[i + 1..]))
  }

  lemma PendingRecordsStep(s: string)
    ensures PendingRecords(Some(s)) == RecordLines(CutAt(s, SEPARATOR).0) + PendingRecords(CutAt(s, SEPARATOR).1)
  {
    var c := CutAt(s, SEPARATOR);
    var later := if c.1.Some? then Split(c.1.value, SEPARATOR) else [];
    assert Split(s, SEPARATOR) == [c.0] + later;
    assert ([c.0] + later)[0] == c.0;
    assert ([c.0] + later)[1..] == later;
    assert RecordsLines(later) == PendingRecords(c.1);
  }

  lemma PendingFieldsStep(s: string, itemcount: nat)
    ensures PendingFields(Some(s), itemcount)
         == FieldLines(CutAt(s, COMMA).0, itemcount) + PendingFields(CutAt(s, COMMA).1, itemcount + 1)
  {
    var c := CutAt(s, COMMA);
    var later := if c.1.Some? then Split(c.1.value, COMMA) else [];
    assert Fields(s) == [c.0] + later;
    assert ([c.0] + later)[0] == c.0;
    assert ([c.0] + later)[1..] == later;
    assert FieldsLines(later, itemcount + 1) == PendingFields(c.1, itemcount + 1);
  }

  lemma RecordsAdvance(out: seq<Line>, s: string, lines: seq<Line>)
    requires lines == RecordLines(CutAt(s, SEPARATOR).0)
    ensures out + PendingRecords(Some(s)) == (out + lines) + PendingRecords(CutAt(s, SEPARATOR).1)
  {
    PendingRecordsStep(s);
    var rest := PendingRecords(CutAt(s, SEPARATOR).1);
    assert PendingRecords(Some(s)) == lines + rest;
    assert out + (lines + rest) == (out + lines) + rest;
  }

  lemma FieldsAdvance(lines: seq<Line>, s: string, itemcount: nat, printed: seq<Line>)
    requires printed == FieldLines(CutAt(s, COMMA).0, itemcount)
    ensures lines + PendingFields(Some(s), itemcount) == (lines + printed) + PendingFields(CutAt(s, COMMA).1, itemcount + 1)
  {
    PendingFieldsStep(s, itemcount);
    var rest := PendingFields(CutAt(s, COMMA).1, itemcount + 1);
    assert PendingFields(Some(s), itemcount) == printed + rest;
    assert lines + (printed + rest) == (lines + printed) + rest;
  }

  /** The outer loop of `display`: cut the buffer at `|` and print each
      non-empty record. */
  method DisplayLoop(reply: string) returns (out: seq<Line>)
    ensures out == Display(reply)
  {
    out := [];
    var buf: Option<string> := Some(CString(reply));
    assert PendingRecords(buf) == Display(reply);
    while buf.Some?
      invariant out + PendingRecords(buf) == Display(reply)
      decreases if buf.Some? then |buf.value| + 1 else 0
    {
      var cut := CutAt(buf.value, SEPARATOR);
      var record := cut.0;
      var nextobj := cut.1;
      var lines: seq<Line> := [];
      if record != "" {
        lines := RecordLoop(record);
      }
      RecordsAdvance(out, buf.value, lines);
      out := out + lines;
      buf := nextobj;
    }
  }

  /** The inner loop of `display` for one non-empty record: cut at `,`, count
      every field, print the non-empty ones, then `)` once a field was counted. */
  method RecordLoop(record: string) returns (lines: seq<Line>)
    requires record != ""
    ensures lines == RecordLines(record)
  {
    lines := [];
    var item: Option<string> := Some(record);
    var itemcount: nat := 0;
    ghost var target := FieldsLines(Fields(record), 0);
    assert RecordLines(record) == target + [Close];
    while item.Some?
      invariant lines + PendingFields(item, itemcount) == target
      invariant item.None? ==> itemcount > 0
      decreases if item.Some? then |item.value| + 1 else 0
    {
      var c := CutAt(item.value, COMMA);
      var printed := PrintField(c.0, itemcount);
      PrintedFieldLines(c.0, itemcount, printed);
      FieldsAdvance(lines, item.value, itemcount, printed);
      lines := lines + printed;
      item := c.1;
      itemcount := itemcount + 1;
    }
    if itemcount > 0 {
      lines := lines + [Close];
    }
  }

  /** The body of the inner loop for the field at position `itemcount`:
      nothing for an empty field; otherwise the header and `(` first exactly
      when it is the record's first field, and last the field's entry. */
  method PrintField(field: string, itemcount: nat) returns (printed: seq<Line>)
    ensures field == "" ==> printed == []
    ensures field != "" ==> |printed| > 0 && printed[|printed| - 1] == FieldEntry(field, itemcount)
    ensures field != "" ==> (itemcount == 0 <==> |printed| == 3)
    ensures field != "" && itemcount != 0 ==> |printed| == 1
    ensures field != "" && itemcount == 0 ==>
              printed[0] == Header(HeaderName(SplitPair(field))) && printed[1] == Open
  {
    printed := [];
    if field != "" {
      var p := SplitPair(field);
      if itemcount == 0 {
        printed := [Header(HeaderName(p)), Open];
      }
      match p.value {
        case Some(v) => printed := printed + [Field(Key(p.key), v)];
        case None => printed := printed + [Field(Position(itemcount), field)];
      }
    }
  }

  /** Those facts about the printed lines determine them: they are the
      field's output. */
  lemma PrintedFieldLines(field: string, itemcount: nat, printed: seq<Line>)
    requires field == "" ==> printed == []
    requires field != "" ==> |printed| > 0 && printed[|printed| - 1] == FieldEntry(field, itemcount)
    requires field != "" ==> (itemcount == 0 <==> |printed| == 3)
    requires field != "" && itemcount != 0 ==> |printed| == 1
    requires field != "" && itemcount == 0 ==>
               printed[0] == Header(HeaderName(SplitPair(field))) && printed[1] == Open
    ensures printed == FieldLines(field, itemcount)
  {
    if field != "" && itemcount == 0 {
      assert printed == [printed[0], printed[1], printed[2]];
    } else if field != "" {
      assert printed == [printed[0]];
    }
  }
}
