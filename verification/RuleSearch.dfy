/** The rule search of the compressor: FIND_RULE proposes the next rule whose entries occur in the
    packet, MO accepts or rejects it, and a rejection sends the machine back to FIND_RULE. */
module RuleSearch {
  import opened Bytes
  import opened Rules

  // ---- FIND_RULE --------------------------------------------------------------------------------

  predicate Directed(e: Entry, dir: Direction) { e.direction == Bi || e.direction == dir }

  /** First field not used yet that has the entry's identifier; the number of fields if there is none. */
  function FirstUnused(fields: seq<Field>, used: seq<bool>, fid: string, i: nat): (k: nat)
    requires |used| == |fields| && i <= |fields|
    ensures i <= k <= |fields| && (k < |fields| ==> !used[k] && fields[k].fid == fid)
    ensures forall j :: i <= j < k ==> used[j] || fields[j].fid != fid
    decreases |fields| - i
  {
    if i == |fields| || (!used[i] && fields[i].fid == fid) then i else FirstUnused(fields, used, fid, i + 1)
  }

  /** Each entry in turn takes the first unused field it can. */
  predicate Occur(entries: seq<Entry>, fields: seq<Field>, dir: Direction, used: seq<bool>)
    requires |used| == |fields|
    decreases |entries|
  {
    if entries == [] then true
    else
      var k := FirstUnused(fields, used, entries[0].fid, 0);
      k < |fields| && Directed(entries[0], dir) && Occur(entries[1..], fields, dir, used[k := true])
  }

  function Unused(fields: seq<Field>): (used: seq<bool>)
    ensures |used| == |fields|
  {
    Repeat(false, |fields|)
  }

  predicate Candidate(r: Rule, fields: seq<Field>, dir: Direction) {
    r.nature == Compression && Occur(r.entries, fields, dir, Unused(fields))
  }

  /** How many entries name an identifier, and how many unused fields have it. */
  function Named(entries: seq<Entry>, fid: string): nat {
    if entries == [] then 0 else (if entries[0].fid == fid then 1 else 0) + Named(entries[1..], fid)
  }

  function Available(fields: seq<Field>, used: seq<bool>, fid: string, i: nat): nat
    requires |used| == |fields| && i <= |fields|
    decreases |fields| - i
  {
    if i == |fields| then 0
    else (if !used[i] && fields[i].fid == fid then 1 else 0) + Available(fields, used, fid, i + 1)
  }

  lemma {:induction false} AvailableMeansFound(fields: seq<Field>, used: seq<bool>, fid: string, i: nat)
    requires |used| == |fields| && i <= |fields|
    ensures Available(fields, used, fid, i) > 0 <==> FirstUnused(fields, used, fid, i) < |fields|
    decreases |fields| - i
  {
    if i == |fields| {
    } else {
      AvailableMeansFound(fields, used, fid, i + 1);
    }
  }

  lemma {:induction false} TakingOne(fields: seq<Field>, used: seq<bool>, k: nat, fid: string, i: nat)
    requires |used| == |fields| && k < |fields| && !used[k] && i <= |fields|
    ensures Available(fields, used[k := true], fid, i)
         == Available(fields, used, fid, i) - (if i <= k && fields[k].fid == fid then 1 else 0)
    decreases |fields| - i
  {
    if i == |fields| {
    } else {
      TakingOne(fields, used, k, fid, i + 1);
    }
  }

  predicate AllDirected(entries: seq<Entry>, dir: Direction) {
    forall i :: 0 <= i < |entries| ==> Directed(entries[i], dir)
  }

  /** No identifier is named more often than unused fields have it. */
  ghost predicate Enough(entries: seq<Entry>, fields: seq<Field>, used: seq<bool>)
    requires |used| == |fields|
  {
    forall fid: string :: Named(entries, fid) <= Available(fields, used, fid, 0)
  }

  lemma EnoughAfterTaking(entries: seq<Entry>, fields: seq<Field>, used: seq<bool>, k: nat)
    requires |used| == |fields| && entries != [] && k < |fields| && !used[k] && fields[k].fid == entries[0].fid
    ensures Enough(entries, fields, used) <==> Enough(entries[1..], fields, used[k := true])
  {
    forall fid: string
      ensures Named(entries, fid) <= Available(fields, used, fid, 0)
              <==> Named(entries[1..], fid) <= Available(fields, used[k := true], fid, 0)
    {
      TakingOne(fields, used, k, fid, 0);
    }
  }

  /** First come, first served loses nothing: the entries occur exactly when all have a matching
      direction and no identifier is named more often than unused fields have it. */
  lemma {:induction false} OccurExactly(entries: seq<Entry>, fields: seq<Field>, dir: Direction, used: seq<bool>)
    requires |used| == |fields|
    ensures Occur(entries, fields, dir, used) <==> AllDirected(entries, dir) && Enough(entries, fields, used)
    decreases |entries|
  {
    if entries != [] {
      var e, rest := entries[0], entries[1..];
      var k := FirstUnused(fields, used, e.fid, 0);
      AvailableMeansFound(fields, used, e.fid, 0);
      assert AllDirected(entries, dir) <==> Directed(e, dir) && AllDirected(rest, dir) by {
        assert forall i :: 0 <= i < |rest| ==> rest[i] == entries[i + 1];
        assert forall i :: 0 < i < |entries| ==> entries[i] == rest[i - 1];
      }
      if k < |fields| {
        OccurExactly(rest, fields, dir, used[k := true]);
        EnoughAfterTaking(entries, fields, used, k);
      } else {
        assert !(Named(entries, e.fid) <= Available(fields, used, e.fid, 0));
      }
    } else {
      assert forall fid: string :: Named(entries, fid) == 0;
    }
  }

  // ---- MO ---------------------------------------------------------------------------------------

  function FirstEqual(values: seq<seq<byte>>, value: seq<byte>, j: nat): (k: nat)
    requires j <= |values|
    ensures j <= k <= |values| && (k < |values| ==> values[k] == value)
    ensures forall i :: j <= i < k ==> values[i] != value
    decreases |values| - j
  {
    if j == |values| || values[j] == value then j else FirstEqual(values, value, j + 1)
  }

  /** Outcome of an entry: a field taken, with the mapping index if there is one; no field; or a stop. */
  datatype Hit = Hit(used: seq<bool>, index: seq<nat>) | Miss | Stop

  /** The inner loop of MO. A mapping index lives in a signed byte: from 128 on it counts as no match.
      A field that fails a mapping is used up; one that fails another operator is not. */
  function Scan(e: Entry, fields: seq<Field>, used: seq<bool>, i: nat): (h: Hit)
    requires |used| == |fields| && i <= |fields|
    ensures h.Hit? ==> |h.used| == |fields|
    decreases |fields| - i
  {
    if i == |fields| then Miss
    else if used[i] || fields[i].fid != e.fid then Scan(e, fields, used, i + 1)
    else
      match e.operator
      case Equal =>
        if e.values == [] then Stop
        else if e.values[0] == fields[i].value then Hit(used[i := true], [])
        else Scan(e, fields, used, i + 1)
      case MatchMapping =>
        var j := FirstEqual(e.values, fields[i].value, 0);
        if j < |e.values| && j % 256 < 128 then Hit(used[i := true], [j % 256])
        else Scan(e, fields, used[i := true], i + 1)
      case Msb =>
        if e.length.Fixed? && e.values == [] then Stop
        else if e.length.Fixed? && MsbAgree(e.values[0], fields[i].value, e.msbLength) then Hit(used[i := true], [])
        else Scan(e, fields, used, i + 1)
      case _ => Stop
  }

  datatype Verdict = Accepted(index: seq<nat>) | Rejected | Broken

  function Match(entries: seq<Entry>, fields: seq<Field>, used: seq<bool>): Verdict
    requires |used| == |fields|
    decreases |entries|
  {
    if entries == [] then Accepted([])
    else if entries[0].operator == Ignore then Match(entries[1..], fields, used)
    else
      match Scan(entries[0], fields, used, 0)
      case Miss => Rejected
      case Stop => Broken
      case Hit(used', index) =>
        match Match(entries[1..], fields, used')
        case Accepted(rest) => Accepted(index + rest)
        case other => other
  }

  function Judge(r: Rule, fields: seq<Field>): Verdict {
    Match(r.entries, fields, Unused(fields))
  }

  // ---- The search -------------------------------------------------------------------------------

  datatype Choice = Use(rule: nat, index: seq<nat>) | UseDefault(rule: nat) | NoRule | BrokenRule(rule: nat)

  predicate IsDefault(r: Rule, id: nat) { r.nature == NoCompression && r.id == id }

  /** The machine's memory: where to look next, and the default rule once seen (-1 before). */
  datatype Memory = Memory(position: nat, default: int)

  /** One execution of FIND_RULE from a position: the next candidate, or the number of rules. */
  function NextCandidate(rules: seq<Rule>, fields: seq<Field>, dir: Direction, p: nat): (c: nat)
    requires p <= |rules|
    ensures p <= c <= |rules| && (c < |rules| ==> Candidate(rules[c], fields, dir))
    ensures forall i :: p <= i < c ==> !Candidate(rules[i], fields, dir)
    decreases |rules| - p
  {
    if p == |rules| || Candidate(rules[p], fields, dir) then p else NextCandidate(rules, fields, dir, p + 1)
  }

  /** The default rule noticed while looking at rules `p` to `c`, unless one is known already. */
  function Noticed(rules: seq<Rule>, id: nat, known: int, p: nat, c: nat): (d: int)
    requires p <= c <= |rules|
    ensures known >= 0 ==> d == known
    ensures known < 0 ==> if exists i :: p <= i < c && IsDefault(rules[i], id)
                          then p <= d < c && IsDefault(rules[d], id) && forall i :: p <= i < d ==> !IsDefault(rules[i], id)
                          else d == known
    decreases c - p
  {
    if known >= 0 || p == c then known
    else if IsDefault(rules[p], id) then p
    else Noticed(rules, id, known, p + 1, c)
  }

  /** The alternation of FIND_RULE and MO from a memory on. */
  function Search(rules: seq<Rule>, fields: seq<Field>, dir: Direction, id: nat, m: Memory): Choice
    requires m.position <= |rules|
    decreases |rules| - m.position
  {
    var c := NextCandidate(rules, fields, dir, m.position);
    var d := Noticed(rules, id, m.default, m.position, c);
    if c == |rules| then (if d >= 0 then UseDefault(d) else NoRule)
    else
      match Judge(rules[c], fields)
      case Accepted(index) => Use(c, index)
      case Broken => BrokenRule(c)
      case Rejected => Search(rules, fields, dir, id, Memory(c + 1, d))
  }

  /** Executions of FIND_RULE and MO that the search takes. */
  function Steps(rules: seq<Rule>, fields: seq<Field>, dir: Direction, p: nat): nat
    requires p <= |rules|
    decreases |rules| - p
  {
    var c := NextCandidate(rules, fields, dir, p);
    if c == |rules| then 1
    else if Judge(rules[c], fields) == Rejected then 2 + Steps(rules, fields, dir, c + 1)
    else 2
  }

  lemma {:induction false} LinearSteps(rules: seq<Rule>, fields: seq<Field>, dir: Direction, p: nat)
    requires p <= |rules|
    ensures Steps(rules, fields, dir, p) <= 2 * (|rules| - p) + 1
    decreases |rules| - p
  {
    var c := NextCandidate(rules, fields, dir, p);
    if c < |rules| && Judge(rules[c], fields) == Rejected {
      LinearSteps(rules, fields, dir, c + 1);
    }
  }

  /** The rule settles the search: it is proposed and not rejected. */
  predicate Decisive(r: Rule, fields: seq<Field>, dir: Direction) {
    Candidate(r, fields, dir) && Judge(r, fields) != Rejected
  }

  /** What a search should return: the lowest decisive rule; without one, the lowest default rule; and
      failure exactly when there is neither. */
  predicate RightChoice(rules: seq<Rule>, fields: seq<Field>, dir: Direction, id: nat, p: nat, known: int, c: Choice) {
    match c
    case Use(i, index) =>
      p <= i < |rules| && Candidate(rules[i], fields, dir) && Judge(rules[i], fields) == Accepted(index)
      && forall j :: p <= j < i ==> !Decisive(rules[j], fields, dir)
    case BrokenRule(i) =>
      p <= i < |rules| && Candidate(rules[i], fields, dir) && Judge(rules[i], fields) == Broken
      && forall j :: p <= j < i ==> !Decisive(rules[j], fields, dir)
    case UseDefault(d) =>
      && (forall j :: p <= j < |rules| ==> !Decisive(rules[j], fields, dir))
      && if known >= 0 then d == known
         else p <= d < |rules| && IsDefault(rules[d], id) && forall j :: p <= j < d ==> !IsDefault(rules[j], id)
    case NoRule =>
      known < 0 && forall j :: p <= j < |rules| ==> !Decisive(rules[j], fields, dir) && !IsDefault(rules[j], id)
  }

  lemma ContinueAfterRejection(rules: seq<Rule>, fields: seq<Field>, dir: Direction, id: nat, p: nat, known: int, c: nat, choice: Choice)
    requires p <= c < |rules| && c == NextCandidate(rules, fields, dir, p) && Judge(rules[c], fields) == Rejected
    requires RightChoice(rules, fields, dir, id, c + 1, Noticed(rules, id, known, p, c), choice)
    ensures RightChoice(rules, fields, dir, id, p, known, choice)
  {
    assert !IsDefault(rules[c], id);
    assert forall j :: p <= j <= c ==> !Decisive(rules[j], fields, dir);
  }

  /** The first candidate settles the search, or there is none. */
  lemma SettledAtOnce(rules: seq<Rule>, fields: seq<Field>, dir: Direction, id: nat, m: Memory)
    requires m.position <= |rules|
    requires var c := NextCandidate(rules, fields, dir, m.position); c == |rules| || Judge(rules[c], fields) != Rejected
    ensures RightChoice(rules, fields, dir, id, m.position, m.default, Search(rules, fields, dir, id, m))
  {
  }

  lemma {:induction false} SearchIsRight(rules: seq<Rule>, fields: seq<Field>, dir: Direction, id: nat, m: Memory)
    requires m.position <= |rules|
    ensures RightChoice(rules, fields, dir, id, m.position, m.default, Search(rules, fields, dir, id, m))
    decreases |rules| - m.position
  {
    var c := NextCandidate(rules, fields, dir, m.position);
    if c == |rules| || Judge(rules[c], fields) != Rejected {
      SettledAtOnce(rules, fields, dir, id, m);
    } else {
      var next := Memory(c + 1, Noticed(rules, id, m.default, m.position, c));
      SearchIsRight(rules, fields, dir, id, next);
      ContinueAfterRejection(rules, fields, dir, id, m.position, m.default, c, Search(rules, fields, dir, id, next));
    }
  }

  /** From a fresh context: an accepted rule is the lowest decisive one, the default rule is used
      exactly when nothing is decisive and there is one, and the search fails exactly when there is
      neither. */
  lemma FreshSearch(rules: seq<Rule>, fields: seq<Field>, dir: Direction, id: nat)
    ensures var c := Search(rules, fields, dir, id, Memory(0, -1));
            && (c.Use? || c.BrokenRule? <==> exists i :: 0 <= i < |rules| && Decisive(rules[i], fields, dir))
            && (c.UseDefault? <==> (forall i :: 0 <= i < |rules| ==> !Decisive(rules[i], fields, dir))
                                   && exists i :: 0 <= i < |rules| && IsDefault(rules[i], id))
            && (c.NoRule? <==> forall i :: 0 <= i < |rules| ==> !Decisive(rules[i], fields, dir) && !IsDefault(rules[i], id))
            && RightChoice(rules, fields, dir, id, 0, -1, c)
  {
    SearchIsRight(rules, fields, dir, id, Memory(0, -1));
  }

  // ---- What acceptance means when identifiers are distinct ----------------------------------------

  predicate DistinctFields(fields: seq<Field>) {
    forall i, j :: 0 <= i < j < |fields| ==> fields[i].fid != fields[j].fid
  }

  predicate DistinctEntries(entries: seq<Entry>) {
    forall i, j :: 0 <= i < j < |entries| ==> entries[i].fid != entries[j].fid
  }

  /** The operator holds between an entry and a field. */
  predicate Holds(e: Entry, f: Field) {
    match e.operator
    case Ignore => true
    case Equal => e.values != [] && e.values[0] == f.value
    case MatchMapping => f.value in e.values && FirstEqual(e.values, f.value, 0) % 256 < 128
    case Msb => e.length.Fixed? && e.values != [] && MsbAgree(e.values[0], f.value, e.msbLength)
    case UnknownOperator => false
  }

  /** The mapping index a match yields, if it yields one. */
  function MappingIndex(e: Entry, f: Field): seq<nat> {
    if e.operator == MatchMapping then [FirstEqual(e.values, f.value, 0) % 256] else []
  }

  /** The machine can evaluate the entry's operator on a field. */
  predicate Sane(e: Entry) {
    match e.operator
    case Equal => e.values != []
    case Msb => e.length.Variable? || e.values != []
    case UnknownOperator => false
    case _ => true
  }

  predicate Satisfied(e: Entry, fields: seq<Field>) {
    exists i :: 0 <= i < |fields| && fields[i].fid == e.fid && Holds(e, fields[i])
  }

  /** No field of a remaining entry is used. */
  predicate Free(entries: seq<Entry>, fields: seq<Field>, used: seq<bool>)
    requires |used| == |fields|
  {
    forall a, i :: 0 <= a < |entries| && 0 <= i < |fields| && fields[i].fid == entries[a].fid ==> !used[i]
  }

  predicate Covered(e: Entry, fields: seq<Field>) {
    exists k :: 0 <= k < |fields| && fields[k].fid == e.fid
  }

  /** The machine stops on the entry: there is a field, but the operator cannot be evaluated. */
  predicate Stops(e: Entry, fields: seq<Field>) {
    e.operator != Ignore && !Sane(e) && Covered(e, fields)
  }

  lemma {:induction false} ScanDistinct(e: Entry, fields: seq<Field>, used: seq<bool>, i: nat)
    requires |used| == |fields| && i <= |fields| && DistinctFields(fields) && e.operator != Ignore
    requires forall k :: 0 <= k < |fields| && fields[k].fid == e.fid ==> !used[k]
    requires forall k :: 0 <= k < i ==> fields[k].fid != e.fid
    ensures var h := Scan(e, fields, used, i);
            && (h.Stop? <==> Stops(e, fields)) && (h.Hit? <==> Satisfied(e, fields))
            && (h.Hit? ==> forall k :: 0 <= k < |fields| && fields[k].fid != e.fid ==> h.used[k] == used[k])
            && (h.Hit? ==> forall k :: 0 <= k < |fields| && fields[k].fid == e.fid ==>
                             Holds(e, fields[k]) && h.index == MappingIndex(e, fields[k]))
    decreases |fields| - i
  {
    if i < |fields| && fields[i].fid == e.fid {
      if Sane(e) && !Holds(e, fields[i]) {
        NoneLeft(e, fields, if e.operator == MatchMapping then used[i := true] else used, i + 1);
      }
    } else if i < |fields| {
      ScanDistinct(e, fields, used, i + 1);
    }
  }

  /** Past the only field with its identifier, an entry finds nothing. */
  lemma {:induction false} NoneLeft(e: Entry, fields: seq<Field>, used: seq<bool>, i: nat)
    requires |used| == |fields| && 0 < i <= |fields| && DistinctFields(fields) && fields[i - 1].fid == e.fid
    ensures Scan(e, fields, used, i) == Miss
    decreases |fields| - i
  {
    NoneFrom(e, fields, used, i);
  }

  lemma {:induction false} NoneFrom(e: Entry, fields: seq<Field>, used: seq<bool>, i: nat)
    requires |used| == |fields| && i <= |fields| && forall k :: i <= k < |fields| ==> fields[k].fid != e.fid
    ensures Scan(e, fields, used, i) == Miss
    decreases |fields| - i
  {
    if i == |fields| {
    } else {
      NoneFrom(e, fields, used, i + 1);
    }
  }

  /** Every entry that does not ignore holds on the field of its identifier. */
  predicate AllSatisfied(entries: seq<Entry>, fields: seq<Field>) {
    forall a :: 0 <= a < |entries| && entries[a].operator != Ignore ==> Satisfied(entries[a], fields)
  }

  /** After entries that hold comes one the machine stops on. */
  predicate StopsSomewhere(entries: seq<Entry>, fields: seq<Field>) {
    exists a :: 0 <= a < |entries| && Stops(entries[a], fields) && AllSatisfied(entries[..a], fields)
  }

  lemma FirstEntry(entries: seq<Entry>, fields: seq<Field>)
    requires entries != []
    ensures var holds := entries[0].operator == Ignore || Satisfied(entries[0], fields);
            && (AllSatisfied(entries, fields) <==> holds && AllSatisfied(entries[1..], fields))
            && (StopsSomewhere(entries, fields) <==> Stops(entries[0], fields) || (holds && StopsSomewhere(entries[1..], fields)))
  {
    var e, rest := entries[0], entries[1..];
    assert forall a :: 0 <= a < |rest| ==> rest[a] == entries[a + 1];
    assert forall a :: 0 < a < |entries| ==> entries[a] == rest[a - 1];
    if Stops(e, fields) {
      assert AllSatisfied(entries[..0], fields);
    }
    if StopsSomewhere(entries, fields) {
      var a :| 0 <= a < |entries| && Stops(entries[a], fields) && AllSatisfied(entries[..a], fields);
      if a > 0 {
        var whole, front := entries[..a], rest[..a - 1];
        assert whole[0] == e && forall b :: 0 <= b < |front| ==> front[b] == whole[b + 1];
        assert Stops(rest[a - 1], fields) && AllSatisfied(front, fields);
      }
    }
    if (e.operator == Ignore || Satisfied(e, fields)) && StopsSomewhere(rest, fields) {
      var a :| 0 <= a < |rest| && Stops(rest[a], fields) && AllSatisfied(rest[..a], fields);
      var whole, front := entries[..a + 1], rest[..a];
      assert forall b :: 0 < b < |whole| ==> whole[b] == front[b - 1];
      assert Stops(entries[a + 1], fields) && AllSatisfied(whole, fields);
    }
  }

  /** With distinct identifiers, MO accepts exactly when every entry that does not ignore holds on the
      field of its identifier, and breaks exactly when it comes to one it cannot evaluate. */
  lemma {:induction false} AcceptedExactly(entries: seq<Entry>, fields: seq<Field>, used: seq<bool>)
    requires |used| == |fields| && DistinctFields(fields) && DistinctEntries(entries) && Free(entries, fields, used)
    ensures var v := Match(entries, fields, used);
            && (v.Accepted? <==> AllSatisfied(entries, fields))
            && (v.Broken? <==> StopsSomewhere(entries, fields))
    decreases |entries|
  {
    if entries == [] {
    } else {
      var e, rest := entries[0], entries[1..];
      FirstEntry(entries, fields);
      assert forall a :: 0 <= a < |rest| ==> rest[a] == entries[a + 1];
      if e.operator == Ignore {
        AcceptedExactly(rest, fields, used);
      } else {
        ScanDistinct(e, fields, used, 0);
        var h := Scan(e, fields, used, 0);
        if h.Hit? {
          AcceptedExactly(rest, fields, h.used);
        }
      }
    }
  }

  lemma {:induction false} AvailableOnce(fields: seq<Field>, fid: string, i: nat)
    requires DistinctFields(fields) && i <= |fields|
    ensures Available(fields, Unused(fields), fid, i)
         == if exists k :: i <= k < |fields| && fields[k].fid == fid then 1 else 0
    decreases |fields| - i
  {
    if i == |fields| {
    } else {
      AvailableOnce(fields, fid, i + 1);
    }
  }

  lemma {:induction false} NamedSome(entries: seq<Entry>, fid: string)
    ensures Named(entries, fid) > 0 <==> exists a :: 0 <= a < |entries| && entries[a].fid == fid
  {
    if entries == [] {
    } else {
      NamedSome(entries[1..], fid);
      if exists a :: 0 <= a < |entries| && entries[a].fid == fid {
        var a :| 0 <= a < |entries| && entries[a].fid == fid;
        assert a > 0 ==> entries[1..][a - 1].fid == fid;
      }
    }
  }

  lemma {:induction false} NamedTwice(entries: seq<Entry>, a: nat, b: nat)
    requires a < b < |entries| && entries[a].fid == entries[b].fid
    ensures Named(entries, entries[a].fid) >= 2
    decreases a
  {
    if a == 0 {
      assert entries[1..][b - 1].fid == entries[0].fid;
      NamedSome(entries[1..], entries[0].fid);
    } else {
      assert entries[1..][a - 1] == entries[a] && entries[1..][b - 1] == entries[b];
      NamedTwice(entries[1..], a - 1, b - 1);
    }
  }

  lemma {:induction false} NamedOnce(entries: seq<Entry>, fid: string)
    requires DistinctEntries(entries)
    ensures Named(entries, fid) <= 1
  {
    if entries == [] {
    } else {
      assert forall i :: 0 <= i < |entries[1..]| ==> entries[1..][i] == entries[i + 1];
      NamedOnce(entries[1..], fid);
      NamedSome(entries[1..], fid);
    }
  }

  /** With distinct identifiers in the packet, having enough fields means naming each identifier once
      and only identifiers of the packet. */
  lemma EnoughMeansCovered(entries: seq<Entry>, fields: seq<Field>)
    requires DistinctFields(fields)
    ensures Enough(entries, fields, Unused(fields))
            <==> DistinctEntries(entries) && forall a :: 0 <= a < |entries| ==> Covered(entries[a], fields)
  {
    if Enough(entries, fields, Unused(fields)) {
      forall a, b | 0 <= a < b < |entries| ensures entries[a].fid != entries[b].fid {
        if entries[a].fid == entries[b].fid {
          NamedTwice(entries, a, b);
          AvailableOnce(fields, entries[a].fid, 0);
        }
      }
      forall a | 0 <= a < |entries| ensures Covered(entries[a], fields) {
        NamedSome(entries, entries[a].fid);
        AvailableOnce(fields, entries[a].fid, 0);
      }
    }
    if DistinctEntries(entries) && forall a :: 0 <= a < |entries| ==> Covered(entries[a], fields) {
      forall fid: string ensures Named(entries, fid) <= Available(fields, Unused(fields), fid, 0) {
        NamedSome(entries, fid);
        NamedOnce(entries, fid);
        AvailableOnce(fields, fid, 0);
      }
    }
  }

  /** A compression rule with distinct identifiers, each of the packet, and matching directions. */
  predicate Fits(r: Rule, fields: seq<Field>, dir: Direction) {
    && r.nature == Compression && DistinctEntries(r.entries)
    && forall a :: 0 <= a < |r.entries| ==> Directed(r.entries[a], dir) && Covered(r.entries[a], fields)
  }

  /** The rule fits and every operator holds. */
  predicate Applies(r: Rule, fields: seq<Field>, dir: Direction) {
    Fits(r, fields, dir) && AllSatisfied(r.entries, fields)
  }

  /** The rule fits but has an operator that stops the machine. */
  predicate Breaks(r: Rule, fields: seq<Field>, dir: Direction) {
    Fits(r, fields, dir) && StopsSomewhere(r.entries, fields)
  }

  /** In a packet of distinct identifiers: a rule is accepted exactly when it applies, and breaks the
      search exactly when it fits and the machine stops on it. */
  lemma AppliesExactly(r: Rule, fields: seq<Field>, dir: Direction)
    requires DistinctFields(fields)
    ensures Candidate(r, fields, dir) && Judge(r, fields).Accepted? <==> Applies(r, fields, dir)
    ensures Candidate(r, fields, dir) && Judge(r, fields).Broken? <==> Breaks(r, fields, dir)
  {
    OccurExactly(r.entries, fields, dir, Unused(fields));
    EnoughMeansCovered(r.entries, fields);
    if DistinctEntries(r.entries) {
      AcceptedExactly(r.entries, fields, Unused(fields));
    }
  }

  predicate LowestApplies(rules: seq<Rule>, fields: seq<Field>, dir: Direction, id: nat, c: Choice) {
    match c
    case Use(i, index) =>
      i < |rules| && Applies(rules[i], fields, dir)
      && forall j :: 0 <= j < i ==> !Applies(rules[j], fields, dir) && !Breaks(rules[j], fields, dir)
    case BrokenRule(i) =>
      i < |rules| && Breaks(rules[i], fields, dir)
      && forall j :: 0 <= j < i ==> !Applies(rules[j], fields, dir) && !Breaks(rules[j], fields, dir)
    case UseDefault(d) =>
      && (forall j :: 0 <= j < |rules| ==> !Applies(rules[j], fields, dir) && !Breaks(rules[j], fields, dir))
      && d < |rules| && IsDefault(rules[d], id) && forall j :: 0 <= j < d ==> !IsDefault(rules[j], id)
    case NoRule =>
      forall j :: 0 <= j < |rules| ==>
        !Applies(rules[j], fields, dir) && !Breaks(rules[j], fields, dir) && !IsDefault(rules[j], id)
  }

  /** The search on a packet of distinct identifiers: the lowest rule that applies, unless a lower one
      stops the machine; without either the lowest default rule, otherwise failure. */
  lemma SelectsLowestRule(rules: seq<Rule>, fields: seq<Field>, dir: Direction, id: nat)
    requires DistinctFields(fields)
    ensures LowestApplies(rules, fields, dir, id, Search(rules, fields, dir, id, Memory(0, -1)))
  {
    SearchIsRight(rules, fields, dir, id, Memory(0, -1));
    forall j | 0 <= j < |rules|
      ensures Decisive(rules[j], fields, dir) <==> Applies(rules[j], fields, dir) || Breaks(rules[j], fields, dir)
      ensures Candidate(rules[j], fields, dir) && Judge(rules[j], fields).Accepted? <==> Applies(rules[j], fields, dir)
      ensures Candidate(rules[j], fields, dir) && Judge(rules[j], fields).Broken? <==> Breaks(rules[j], fields, dir)
    {
      AppliesExactly(rules[j], fields, dir);
    }
  }

  // ---- The machine ------------------------------------------------------------------------------

  datatype State = FindRule | Mo | Cda | NoCompress | Failed

  class Machine {
    const rules: seq<Rule>
    const fields: seq<Field>
    const direction: Direction
    const defaultId: nat
    var state: State
    var defRule: int
    var searchPosition: nat
    var selectedRule: int
    var indexMM: seq<nat>

    constructor (rules: seq<Rule>, fields: seq<Field>, direction: Direction, defaultId: nat)
      ensures this.rules == rules && this.fields == fields && this.direction == direction && this.defaultId == defaultId
      ensures state == FindRule && defRule == -1 && searchPosition == 0
    {
      this.rules, this.fields, this.direction, this.defaultId := rules, fields, direction, defaultId;
      state, defRule, searchPosition, selectedRule, indexMM := FindRule, -1, 0, -1, [];
    }

    /** The innermost loop of FIND_RULE. */
    method TakeField(e: Entry, used: seq<bool>) returns (found: bool, used': seq<bool>)
      requires |used| == |fields|
      ensures found <==> FirstUnused(fields, used, e.fid, 0) < |fields| && Directed(e, direction)
      ensures |used'| == |fields| && (found ==> used' == used[FirstUnused(fields, used, e.fid, 0) := true])
    {
      for i := 0 to |fields|
        invariant Directed(e, direction) ==> FirstUnused(fields, used, e.fid, 0) == FirstUnused(fields, used, e.fid, i)
      {
        if used[i] || e.fid != fields[i].fid || !Directed(e, direction) {
          continue;
        }
        return true, used[i := true];
      }
      return false, used;
    }

    method EntriesOccur(entries: seq<Entry>) returns (ok: bool)
      ensures ok == Occur(entries, fields, direction, Unused(fields))
    {
      var used := Unused(fields);
      for a := 0 to |entries|
        invariant |used| == |fields|
        invariant Occur(entries, fields, direction, Unused(fields)) == Occur(entries[a..], fields, direction, used)
      {
        assert entries[a..][0] == entries[a] && entries[a..][1..] == entries[a + 1..];
        var found;
        found, used := TakeField(entries[a], used);
        if !found {
          return false;
        }
      }
      return true;
    }

    /** `st_find_rule` */
    method StFindRule()
      requires state == FindRule && searchPosition <= |rules|
      modifies this
      ensures var c := NextCandidate(rules, fields, direction, old(searchPosition));
              && defRule == Noticed(rules, defaultId, old(defRule), old(searchPosition), c)
              && if c < |rules| then state == Mo && selectedRule == c && searchPosition == c + 1
                 else searchPosition == old(searchPosition)
                      && if defRule >= 0 then state == NoCompress && selectedRule == defRule else state == Failed
    {
      selectedRule := -1;
      var known := defRule;
      var i := searchPosition;
      while i < |rules|
        invariant old(searchPosition) <= i <= |rules| && searchPosition == old(searchPosition) && state == FindRule && selectedRule == -1
        invariant NextCandidate(rules, fields, direction, i) == NextCandidate(rules, fields, direction, old(searchPosition))
        invariant var c := NextCandidate(rules, fields, direction, i);
                  Noticed(rules, defaultId, defRule, i, c) == Noticed(rules, defaultId, old(defRule), old(searchPosition), c)
      {
        if defRule < 0 && rules[i].nature == NoCompression && rules[i].id == defaultId {
          defRule := i;
        }
        if rules[i].nature == Compression {
          var ok := EntriesOccur(rules[i].entries);
          if ok {
            searchPosition, selectedRule, state := i + 1, i, Mo;
            return;
          }
        }
        i := i + 1;
      }
      if defRule < 0 {
        state := Failed;
      } else {
        selectedRule, state := defRule, NoCompress;
      }
    }

    /** The inner loop of `st_mo`. */
    method ScanFields(e: Entry, used: seq<bool>) returns (h: Hit)
      requires |used| == |fields| && e.operator != Ignore
      ensures h == Scan(e, fields, used, 0)
    {
      var flags := used;
      for i := 0 to |fields|
        invariant |flags| == |fields| && Scan(e, fields, flags, i) == Scan(e, fields, used, 0)
      {
        if flags[i] || e.fid != fields[i].fid {
          continue;
        }
        match e.operator {
          case Equal =>
            if e.values == [] {
              return Stop;
            }
            if e.values[0] == fields[i].value {
              return Hit(flags[i := true], []);
            }
          case MatchMapping =>
            var pushed := Mapping(e.values, fields[i].value);
            flags := flags[i := true];
            if pushed >= 0 {
              return Hit(flags, [pushed]);
            }
          case Msb =>
            if e.length.Fixed? {
              if e.values == [] {
                return Stop;
              }
              var agree := MsbComparator(e.values[0], fields[i].value, e.msbLength);
              if agree {
                return Hit(flags[i := true], []);
              }
            }
          case _ =>
            return Stop;
        }
      }
      return Miss;
    }

    /** Index of a value in the target list, kept in a signed byte. */
    static method Mapping(values: seq<seq<byte>>, value: seq<byte>) returns (pushed: int)
      ensures var j := FirstEqual(values, value, 0);
              if j < |values| && j % 256 < 128 then pushed == j % 256 else pushed < 0
    {
      pushed := -1;
      for j := 0 to |values|
        invariant FirstEqual(values, value, 0) == FirstEqual(values, value, j)
      {
        if values[j] == value {
          pushed := if j % 256 < 128 then j % 256 else j % 256 - 256;
          return;
        }
      }
    }

    /** `st_mo` */
    method StMo()
      requires state == Mo && 0 <= selectedRule < |rules|
      modifies this`state, this`selectedRule, this`indexMM
      ensures match Judge(rules[old(selectedRule)], fields)
              case Accepted(index) => state == Cda && selectedRule == old(selectedRule) && indexMM == index
              case Rejected => state == FindRule && selectedRule == -1
              case Broken => state == Failed && selectedRule == old(selectedRule)
    {
      var used := Unused(fields);
      var entries := rules[selectedRule].entries;
      indexMM := [];
      ghost var verdict := Judge(rules[selectedRule], fields);
      for a := 0 to |entries|
        invariant |used| == |fields| && state == Mo && selectedRule == old(selectedRule)
        invariant verdict == After(indexMM, Match(entries[a..], fields, used))
      {
        var e := entries[a];
        assert entries[a..][0] == e && entries[a..][1..] == entries[a + 1..];
        if e.operator == Ignore {
          continue;
        }
        var h := ScanFields(e, used);
        match h {
          case Hit(used', index) =>
            AfterAppend(indexMM, index, Match(entries[a + 1..], fields, used'));
            used, indexMM := used', indexMM + index;
          case Miss =>
            state, selectedRule := FindRule, -1;
            return;
          case Stop =>
            state := Failed;
            return;
        }
      }
      assert indexMM + [] == indexMM;
      state := Cda;
    }

    /** The machine has come to a choice. */
    predicate Chosen(c: Choice)
      reads this
    {
      match c
      case Use(i, index) => state == Cda && selectedRule == i && indexMM == index
      case UseDefault(i) => state == NoCompress && selectedRule == i
      case _ => state == Failed
    }

    function Target(): Choice
      reads this
      requires searchPosition <= |rules|
    {
      Search(rules, fields, direction, defaultId, Memory(searchPosition, defRule))
    }

    /** The alternation of FIND_RULE and MO. */
    method Run() returns (ghost steps: nat)
      requires state == FindRule && searchPosition == 0 && defRule == -1
      modifies this
      ensures Chosen(Search(rules, fields, direction, defaultId, Memory(0, -1)))
      ensures steps == Steps(rules, fields, direction, 0) <= 2 * |rules| + 1
    {
      steps := 0;
      LinearSteps(rules, fields, direction, 0);
      ghost var choice := Target();
      while state == FindRule
        invariant searchPosition <= |rules|
        invariant state == FindRule ==>
                    Target() == choice
                    && steps + Steps(rules, fields, direction, searchPosition) == Steps(rules, fields, direction, 0)
        invariant state != FindRule ==> steps == Steps(rules, fields, direction, 0) && Chosen(choice)
        decreases |rules| - searchPosition, if state == FindRule then 1 else 0
      {
        var taken := Round();
        steps := steps + taken;
      }
    }

    /** FIND_RULE and, on a candidate, MO. */
    method Round() returns (ghost taken: nat)
      requires state == FindRule && searchPosition <= |rules|
      modifies this
      ensures old(searchPosition) <= searchPosition <= |rules|
      ensures state == FindRule ==>
                && searchPosition > old(searchPosition) && Target() == old(Target())
                && taken + Steps(rules, fields, direction, searchPosition) == Steps(rules, fields, direction, old(searchPosition))
      ensures state != FindRule ==> taken == Steps(rules, fields, direction, old(searchPosition)) && Chosen(old(Target()))
    {
      StFindRule();
      taken := 1;
      if state == Mo {
        StMo();
        taken := 2;
      }
    }
  }

  function After(index: seq<nat>, v: Verdict): Verdict {
    match v
    case Accepted(rest) => Accepted(index + rest)
    case other => other
  }

  lemma AfterAppend(a: seq<nat>, b: seq<nat>, v: Verdict)
    ensures After(a, After(b, v)) == After(a + b, v)
  {
    if v.Accepted? {
      assert a + (b + v.index) == a + b + v.index;
    }
  }
}
