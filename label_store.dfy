/**
 * Label bootstrap (createLabel, index.js:82-123): scan the mailbox's label
 * list for `Auto-Reply` and `Replied`, collect one `{autoReply: id}` or
 * `{replied: id}` entry per match in list order, then create at most one
 * missing label. getMails later reads the result by position: entry 0 as
 * the Auto-Reply id, entry 1 as the Replied id.
 */
module LabelStore {
  import opened Wrappers
  import opened MailTypes

  const AutoReplyName := "Auto-Reply"
  const RepliedName := "Replied"

  /** One element of createLabel's result array. */
  datatype LabelEntry = AutoReplyEntry(id: LabelId) | RepliedEntry(id: LabelId)

  datatype LabelListVisibility = LabelShow | LabelHide
  datatype MessageListVisibility = Show | Hide

  /** The `resource` of one `users.labels.create` call. */
  datatype NewLabel = NewLabel(name: string, labelListVisibility: LabelListVisibility,
                               messageListVisibility: MessageListVisibility)

  const AutoReplyLabel := NewLabel(AutoReplyName, LabelShow, Show)
  const RepliedLabel := NewLabel(RepliedName, LabelHide, Hide)

  /** What createLabel returns and which label, if any, it asked the service to create. */
  datatype Bootstrapped = Bootstrapped(entries: seq<LabelEntry>, created: Option<NewLabel>)

  predicate HasLabel(labels: seq<Label>, name: string) {
    exists i :: 0 <= i < |labels| && labels[i].name == name
  }

  predicate WellKnown(name: string) {
    name == AutoReplyName || name == RepliedName
  }

  /** The entries the two `if`s of the scan push for one label. */
  function EntriesFor(l: Label): seq<LabelEntry> {
    (if l.name == AutoReplyName then [AutoReplyEntry(l.id)] else []) +
    (if l.name == RepliedName then [RepliedEntry(l.id)] else [])
  }

  /** The entries the scan pushes for a whole label list, in list order. */
  function ScanEntries(labels: seq<Label>): seq<LabelEntry> {
    if labels == [] then [] else EntriesFor(labels[0]) + ScanEntries(labels[1..])
  }

  /**
   * The decision after the scan (index.js:101-121): create Auto-Reply when
   * it is missing, otherwise create Replied when that is missing; the new
   * label's id, `createdId`, is what the service answers.
   */
  function Bootstrap(labels: seq<Label>, createdId: LabelId): Bootstrapped {
    var scanned := ScanEntries(labels);
    if !HasLabel(labels, AutoReplyName) then
      Bootstrapped(scanned + [AutoReplyEntry(createdId)], Some(AutoReplyLabel))
    else if !HasLabel(labels, RepliedName) then
      Bootstrapped(scanned + [RepliedEntry(createdId)], Some(RepliedLabel))
    else
      Bootstrapped(scanned, None)
  }

  /** The layout getMails relies on: an Auto-Reply entry at index 0 and a Replied entry at index 1. */
  predicate Ready(entries: seq<LabelEntry>) {
    |entries| >= 2 && entries[0].AutoReplyEntry? && entries[1].RepliedEntry?
  }

  /** Mailbox label names are unique (the mail service refuses a duplicate name). */
  predicate UniqueNames(labels: seq<Label>) {
    forall i, j :: 0 <= i < |labels| && 0 <= j < |labels| && labels[i].name == labels[j].name ==> i == j
  }

  // ---- The scan loop and createLabel ---------------------------------------

  /** The scan loop of index.js:87-100. */
  method ScanLabels(labels: seq<Label>) returns (result: seq<LabelEntry>, autoReplyExist: bool, repliedExist: bool)
    ensures result == ScanEntries(labels)
    ensures autoReplyExist <==> HasLabel(labels, AutoReplyName)
    ensures repliedExist <==> HasLabel(labels, RepliedName)
  {
    result := [];
    repliedExist, autoReplyExist := false, false;
    var i := 0;
    while i < |labels|
      invariant 0 <= i <= |labels|
      invariant result == ScanEntries(labels[..i])
      invariant autoReplyExist <==> HasLabel(labels[..i], AutoReplyName)
      invariant repliedExist <==> HasLabel(labels[..i], RepliedName)
    {
      var l := labels[i];
      ScanAppend(labels[..i], [l]);
      assert labels[..i + 1] == labels[..i] + [l];
      assert [l][1..] == [];
      if l.name == AutoReplyName {
        autoReplyExist := true;
        result := result + [AutoReplyEntry(l.id)];
      }
      if l.name == RepliedName {
        repliedExist := true;
        result := result + [RepliedEntry(l.id)];
      }
      i := i + 1;
    }
    assert labels[..i] == labels;
  }

  /** createLabel (index.js:82-123), with the listed labels and the id the service gives a created label as inputs. */
  method CreateLabel(labels: seq<Label>, createdId: LabelId) returns (result: seq<LabelEntry>, created: Option<NewLabel>)
    ensures Bootstrapped(result, created) == Bootstrap(labels, createdId)
  {
    var autoReplyExist, repliedExist;
    result, autoReplyExist, repliedExist := ScanLabels(labels);
    if !autoReplyExist {
      created := Some(AutoReplyLabel);
      result := result + [AutoReplyEntry(createdId)];
    } else if !repliedExist {
      created := Some(RepliedLabel);
      result := result + [RepliedEntry(createdId)];
    } else {
      created := None;
    }
  }

  // ---- Lemmas about the scan -----------------------------------------------

  /** The scan of a concatenation is the concatenation of the scans: entries come in list order. */
  lemma {:induction false} ScanAppend(a: seq<Label>, b: seq<Label>)
    ensures ScanEntries(a + b) == ScanEntries(a) + ScanEntries(b)
  {
    if a == [] {
      assert a + b == b;
    } else {
      assert (a + b)[1..] == a[1..] + b;
      ScanAppend(a[1..], b);
    }
  }

  /** Labels with neither name contribute no entry. */
  lemma {:induction false} ScanNone(labels: seq<Label>)
    requires forall i :: 0 <= i < |labels| ==> !WellKnown(labels[i].name)
    ensures ScanEntries(labels) == []
  {
    if labels != [] {
      ScanNone(labels[1..]);
    }
  }

  /** The label name an entry stands for. */
  function EntryName(e: LabelEntry): string {
    if e.AutoReplyEntry? then AutoReplyName else RepliedName
  }

  /** Some listed label has the entry's name and id. */
  predicate Carries(labels: seq<Label>, e: LabelEntry) {
    exists i :: 0 <= i < |labels| && labels[i].id == e.id && labels[i].name == EntryName(e)
  }

  /** Every entry carries the id of a listed label with the entry's own name. */
  lemma {:induction false} ScanSound(labels: seq<Label>)
    ensures forall k :: 0 <= k < |ScanEntries(labels)| ==> Carries(labels, ScanEntries(labels)[k])
  {
    if labels != [] {
      var tail := labels[1..];
      ScanSound(tail);
      var s, e := ScanEntries(labels), EntriesFor(labels[0]);
      assert s == e + ScanEntries(tail);
      forall k | 0 <= k < |s| ensures Carries(labels, s[k]) {
        if k < |e| {
          assert labels[0].id == s[k].id && labels[0].name == EntryName(s[k]);
        } else {
          assert s[k] == ScanEntries(tail)[k - |e|];
          var i :| 0 <= i < |tail| && tail[i].id == s[k].id && tail[i].name == EntryName(s[k]);
          assert labels[i + 1] == tail[i];
        }
      }
    }
  }

  /** Without an Auto-Reply label every entry is a Replied entry, and the other way round. */
  lemma {:induction false} ScanWithout(labels: seq<Label>)
    ensures !HasLabel(labels, AutoReplyName) ==> forall k :: 0 <= k < |ScanEntries(labels)| ==> ScanEntries(labels)[k].RepliedEntry?
    ensures !HasLabel(labels, RepliedName) ==> forall k :: 0 <= k < |ScanEntries(labels)| ==> ScanEntries(labels)[k].AutoReplyEntry?
  {
    if labels != [] {
      ScanWithout(labels[1..]);
      assert !HasLabel(labels, AutoReplyName) ==> !HasLabel(labels[1..], AutoReplyName) by {
        if HasLabel(labels[1..], AutoReplyName) {
          var i :| 0 <= i < |labels[1..]| && labels[1..][i].name == AutoReplyName;
          assert labels[i + 1] == labels[1..][i];
        }
      }
      assert !HasLabel(labels, RepliedName) ==> !HasLabel(labels[1..], RepliedName) by {
        if HasLabel(labels[1..], RepliedName) {
          var i :| 0 <= i < |labels[1..]| && labels[1..][i].name == RepliedName;
          assert labels[i + 1] == labels[1..][i];
        }
      }
    }
  }

  /** The scan of a list whose only well-known label sits at index i. */
  lemma {:induction false} ScanOne(labels: seq<Label>, i: nat)
    requires i < |labels|
    requires forall m :: 0 <= m < |labels| && m != i ==> !WellKnown(labels[m].name)
    ensures ScanEntries(labels) == EntriesFor(labels[i])
  {
    var tail := labels[1..];
    if i == 0 {
      forall m | 0 <= m < |tail| ensures !WellKnown(tail[m].name) {
        assert tail[m] == labels[m + 1];
      }
      ScanNone(tail);
    } else {
      assert !WellKnown(labels[0].name);
      forall m | 0 <= m < |tail| && m != i - 1 ensures !WellKnown(tail[m].name) {
        assert tail[m] == labels[m + 1];
      }
      ScanOne(tail, i - 1);
      assert tail[i - 1] == labels[i];
    }
  }

  /** The scan of a list whose only well-known labels sit at indices i < j. */
  lemma {:induction false} ScanTwo(labels: seq<Label>, i: nat, j: nat)
    requires i < j < |labels|
    requires forall m :: 0 <= m < |labels| && m != i && m != j ==> !WellKnown(labels[m].name)
    ensures ScanEntries(labels) == EntriesFor(labels[i]) + EntriesFor(labels[j])
  {
    var tail := labels[1..];
    if i == 0 {
      forall m | 0 <= m < |tail| && m != j - 1 ensures !WellKnown(tail[m].name) {
        assert tail[m] == labels[m + 1];
      }
      ScanOne(tail, j - 1);
      assert tail[j - 1] == labels[j];
    } else {
      assert !WellKnown(labels[0].name);
      forall m | 0 <= m < |tail| && m != i - 1 && m != j - 1 ensures !WellKnown(tail[m].name) {
        assert tail[m] == labels[m + 1];
      }
      ScanTwo(tail, i - 1, j - 1);
      assert tail[i - 1] == labels[i] && tail[j - 1] == labels[j];
    }
  }

  // ---- Lemmas about createLabel's result -----------------------------------

  /**
   * At most one label is created per call: none when both names are
   * listed, only Auto-Reply when Auto-Reply is missing (whatever the state
   * of Replied), only Replied when just Replied is missing. A created
   * label's entry comes after all scanned entries, and the two kinds of
   * label are created with opposite visibility.
   */
  lemma CreatesAtMostOne(labels: seq<Label>, createdId: LabelId)
    ensures var b := Bootstrap(labels, createdId);
      && (HasLabel(labels, AutoReplyName) && HasLabel(labels, RepliedName) ==>
            b.created == None && b.entries == ScanEntries(labels))
      && (!HasLabel(labels, AutoReplyName) ==>
            b.created == Some(NewLabel("Auto-Reply", LabelShow, Show)) &&
            b.entries == ScanEntries(labels) + [AutoReplyEntry(createdId)])
      && (HasLabel(labels, AutoReplyName) && !HasLabel(labels, RepliedName) ==>
            b.created == Some(NewLabel("Replied", LabelHide, Hide)) &&
            b.entries == ScanEntries(labels) + [RepliedEntry(createdId)])
  {
  }

  /**
   * Which label lists give getMails the layout it relies on. With unique
   * names: exactly those holding Auto-Reply, and, when they also hold
   * Replied, listing Auto-Reply first. Slot 0 then carries the listed
   * Auto-Reply label's id, and slot 1 the listed Replied label's id or the
   * created one.
   */
  lemma ReadyIff(labels: seq<Label>, createdId: LabelId)
    requires UniqueNames(labels)
    ensures var entries := Bootstrap(labels, createdId).entries;
      Ready(entries) <==>
        HasLabel(labels, AutoReplyName) &&
        (HasLabel(labels, RepliedName) ==>
          exists i, j :: 0 <= i < j < |labels| && labels[i].name == AutoReplyName && labels[j].name == RepliedName)
    ensures var entries := Bootstrap(labels, createdId).entries;
      Ready(entries) ==>
        (exists i :: 0 <= i < |labels| && labels[i].name == AutoReplyName && labels[i].id == entries[0].id) &&
        (if HasLabel(labels, RepliedName)
         then exists j :: 0 <= j < |labels| && labels[j].name == RepliedName && labels[j].id == entries[1].id
         else entries[1].id == createdId)
  {
    var scanned := ScanEntries(labels);
    var entries := Bootstrap(labels, createdId).entries;
    if !HasLabel(labels, AutoReplyName) {
      ScanWithout(labels);
      assert entries == scanned + [AutoReplyEntry(createdId)];
      if scanned != [] {
        assert entries[0] == scanned[0];
      }
    } else {
      var i :| 0 <= i < |labels| && labels[i].name == AutoReplyName;
      if !HasLabel(labels, RepliedName) {
        ScanOne(labels, i);
        assert entries == [AutoReplyEntry(labels[i].id), RepliedEntry(createdId)];
      } else {
        var j :| 0 <= j < |labels| && labels[j].name == RepliedName;
        if i < j {
          ScanTwo(labels, i, j);
          assert entries == [AutoReplyEntry(labels[i].id), RepliedEntry(labels[j].id)];
        } else {
          ScanTwo(labels, j, i);
          assert entries == [RepliedEntry(labels[j].id), AutoReplyEntry(labels[i].id)];
          assert !exists i', j' :: 0 <= i' < j' < |labels| && labels[i'].name == AutoReplyName && labels[j'].name == RepliedName;
        }
      }
    }
  }

  // ---- Findings: the bootstrap as written ----------------------------------

  /**
   * When neither label exists (the first start on a mailbox), the
   * `else if` creates only Auto-Reply: the result has one entry, so the
   * Replied slot getMails reads (`lableIds[1]`) does not exist.
   */
  lemma BothMissingNotReady(labels: seq<Label>, createdId: LabelId)
    requires !HasLabel(labels, AutoReplyName) && !HasLabel(labels, RepliedName)
    ensures Bootstrap(labels, createdId) == Bootstrapped([AutoReplyEntry(createdId)], Some(AutoReplyLabel))
    ensures !Ready(Bootstrap(labels, createdId).entries)
  {
    forall m | 0 <= m < |labels| ensures !WellKnown(labels[m].name) {
    }
    ScanNone(labels);
  }

  /** When the service lists Replied before Auto-Reply, the two slots hold the wrong kinds of entry. */
  lemma RepliedFirstNotReady()
    ensures var labels := [Label("Label_1", "Replied"), Label("Label_2", "Auto-Reply")];
      Bootstrap(labels, "Label_3") == Bootstrapped([RepliedEntry("Label_1"), AutoReplyEntry("Label_2")], None) &&
      !Ready(Bootstrap(labels, "Label_3").entries)
  {
    var labels := [Label("Label_1", "Replied"), Label("Label_2", "Auto-Reply")];
    assert labels[0].name == RepliedName && labels[1].name == AutoReplyName;
    ScanTwo(labels, 0, 1);
  }

  /**
   * Every list with unique names that holds Replied before any Auto-Reply
   * label: the result has exactly two entries, Replied in slot 0 and
   * Auto-Reply (listed later, or created) in slot 1.
   */
  lemma RepliedFirstSwapped(labels: seq<Label>, createdId: LabelId, j: nat)
    requires UniqueNames(labels)
    requires j < |labels| && labels[j].name == RepliedName
    requires forall i :: 0 <= i < j ==> labels[i].name != AutoReplyName
    ensures var entries := Bootstrap(labels, createdId).entries;
      |entries| == 2 && entries[0] == RepliedEntry(labels[j].id) && entries[1].AutoReplyEntry?
  {
    if HasLabel(labels, AutoReplyName) {
      var i :| 0 <= i < |labels| && labels[i].name == AutoReplyName;
      assert j < i;
      ScanTwo(labels, j, i);
    } else {
      ScanOne(labels, j);
    }
  }

  // ---- Findings: the bootstrap as intended ---------------------------------

  /** The id of the first listed label named `name`, if any. */
  function FindLabel(labels: seq<Label>, name: string): (r: Option<LabelId>)
    ensures r.Some? <==> HasLabel(labels, name)
    ensures r.Some? ==>
      exists i :: 0 <= i < |labels| && labels[i].name == name && labels[i].id == r.value &&
        forall j :: 0 <= j < i ==> labels[j].name != name
  {
    if labels == [] then None
    else if labels[0].name == name then Some(labels[0].id)
    else
      var r := FindLabel(labels[1..], name);
      assert HasLabel(labels, name) <==> HasLabel(labels[1..], name) by {
        if HasLabel(labels, name) {
          var i :| 0 <= i < |labels| && labels[i].name == name;
          assert i > 0 && labels[1..][i - 1] == labels[i];
        }
        if HasLabel(labels[1..], name) {
          var i :| 0 <= i < |labels[1..]| && labels[1..][i].name == name;
          assert labels[i + 1] == labels[1..][i];
        }
      }
      assert r.Some? ==>
        exists i :: 0 <= i < |labels| && labels[i].name == name && labels[i].id == r.value &&
          forall j :: 0 <= j < i ==> labels[j].name != name
      by {
        if r.Some? {
          var i :| 0 <= i < |labels[1..]| && labels[1..][i].name == name && labels[1..][i].id == r.value &&
            forall j :: 0 <= j < i ==> labels[1..][j].name != name;
          assert labels[i + 1] == labels[1..][i];
          assert forall j :: 0 < j <= i ==> labels[j] == labels[1..][j - 1];
        }
      }
      r
  }

  /** Labels resolved by name, with every label that had to be created. */
  datatype Resolved = Resolved(entries: seq<LabelEntry>, created: seq<NewLabel>)

  /**
   * The bootstrap as its comment intends: reuse each well-known label that
   * exists, create each one that does not, and put the two entries in the
   * slots getMails reads.
   */
  function ResolveLabels(labels: seq<Label>, newAutoReplyId: LabelId, newRepliedId: LabelId): (r: Resolved)
    ensures Ready(r.entries) && |r.entries| == 2
    ensures AutoReplyLabel in r.created <==> !HasLabel(labels, AutoReplyName)
    ensures RepliedLabel in r.created <==> !HasLabel(labels, RepliedName)
    ensures forall k :: 0 <= k < |r.created| ==> r.created[k] == AutoReplyLabel || r.created[k] == RepliedLabel
    ensures |r.created| == (if HasLabel(labels, AutoReplyName) then 0 else 1) + (if HasLabel(labels, RepliedName) then 0 else 1)
    ensures if HasLabel(labels, AutoReplyName) then Carries(labels, r.entries[0]) else r.entries[0].id == newAutoReplyId
    ensures if HasLabel(labels, RepliedName) then Carries(labels, r.entries[1]) else r.entries[1].id == newRepliedId
  {
    var autoReply := FindLabel(labels, AutoReplyName);
    var replied := FindLabel(labels, RepliedName);
    Resolved(
      [AutoReplyEntry(if autoReply.Some? then autoReply.value else newAutoReplyId),
       RepliedEntry(if replied.Some? then replied.value else newRepliedId)],
      (if autoReply.None? then [AutoReplyLabel] else []) + (if replied.None? then [RepliedLabel] else []))
  }

  /** The list after the labels ResolveLabels asked for were created with the given ids. */
  function AfterCreation(labels: seq<Label>, newAutoReplyId: LabelId, newRepliedId: LabelId): seq<Label> {
    labels +
    (if HasLabel(labels, AutoReplyName) then [] else [Label(newAutoReplyId, AutoReplyName)]) +
    (if HasLabel(labels, RepliedName) then [] else [Label(newRepliedId, RepliedName)])
  }

  /** Running the corrected bootstrap again creates nothing and resolves the same ids. */
  lemma ResolveIdempotent(labels: seq<Label>, a: LabelId, r: LabelId, a': LabelId, r': LabelId)
    ensures var after := AfterCreation(labels, a, r);
      ResolveLabels(after, a', r').created == [] &&
      ResolveLabels(after, a', r').entries == ResolveLabels(labels, a, r).entries
  {
    var after := AfterCreation(labels, a, r);
    var extra := after[|labels|..];
    assert after == labels + extra;
    FindAppend(labels, extra, AutoReplyName);
    FindAppend(labels, extra, RepliedName);
    if !HasLabel(labels, AutoReplyName) {
      assert extra[0] == Label(a, AutoReplyName);
      FindFirst(extra, AutoReplyName);
    }
    if !HasLabel(labels, RepliedName) {
      var k := if HasLabel(labels, AutoReplyName) then 0 else 1;
      assert extra[k] == Label(r, RepliedName);
      assert forall m :: 0 <= m < k ==> extra[m].name != RepliedName;
      FindAt(extra, RepliedName, k);
    }
  }

  /** Looking a name up in a concatenation looks in the front part first. */
  lemma {:induction false} FindAppend(a: seq<Label>, b: seq<Label>, name: string)
    ensures FindLabel(a + b, name) == if HasLabel(a, name) then FindLabel(a, name) else FindLabel(b, name)
  {
    if a == [] {
      assert a + b == b;
    } else {
      assert (a + b)[1..] == a[1..] + b;
      FindAppend(a[1..], b, name);
      if a[0].name != name {
        assert HasLabel(a, name) <==> HasLabel(a[1..], name) by {
          if HasLabel(a, name) {
            var i :| 0 <= i < |a| && a[i].name == name;
            assert i > 0 && a[1..][i - 1] == a[i];
          }
          if HasLabel(a[1..], name) {
            var i :| 0 <= i < |a[1..]| && a[1..][i].name == name;
            assert a[i + 1] == a[1..][i];
          }
        }
      }
    }
  }

  lemma FindFirst(labels: seq<Label>, name: string)
    requires |labels| > 0 && labels[0].name == name
    ensures FindLabel(labels, name) == Some(labels[0].id)
  {
  }

  /** The lookup finds the label at k when no earlier label has the name. */
  lemma {:induction false} FindAt(labels: seq<Label>, name: string, k: nat)
    requires k < |labels| && labels[k].name == name
    requires forall m :: 0 <= m < k ==> labels[m].name != name
    ensures FindLabel(labels, name) == Some(labels[k].id)
  {
    if k > 0 {
      forall m | 0 <= m < k - 1 ensures labels[1..][m].name != name {
        assert labels[1..][m] == labels[m + 1];
      }
      assert labels[1..][k - 1] == labels[k];
      FindAt(labels[1..], name, k - 1);
    }
  }
}
