/**
 * `display_status_summary_with_expanders`: per status option, how many
 * entries of the loaded record carry exactly that status, and which files
 * they are. Labels that are not options are ignored; the record is only
 * read.
 */
module Summary {
  import opened StatusStore

  /** The files whose status is exactly `status`. */
  function Holders(record: Record, status: string): (files: set<string>)
    ensures forall f :: f in files <==> f in record && record[f] == status
  {
    set f | f in record && record[f] == status
  }

  /** Reference definition of the overview: one count per option, the size of its holders. */
  function StatusCounts(record: Record, options: seq<string>): (counts: map<string, nat>)
    ensures counts.Keys == set l | l in options
    ensures forall l :: l in counts ==> counts[l] == |Holders(record, l)|
  {
    map l | l in options :: |Holders(record, l)|
  }

  /** The holders of `status` among the files already visited. */
  ghost function HoldersIn(record: Record, visited: set<string>, status: string): set<string>
  {
    set f | f in visited && f in record && record[f] == status
  }

  /** Visiting one more file adds it to the holders of its own status only. */
  lemma HoldersInStep(record: Record, visited: set<string>, f: string, status: string)
    requires f in record && f !in visited
    ensures record[f] == status ==>
      HoldersIn(record, visited + {f}, status) == HoldersIn(record, visited, status) + {f}
      && |HoldersIn(record, visited + {f}, status)| == |HoldersIn(record, visited, status)| + 1
    ensures record[f] != status ==>
      HoldersIn(record, visited + {f}, status) == HoldersIn(record, visited, status)
  {
    assert f !in HoldersIn(record, visited, status);
  }

  /** The counts over the files already visited. */
  ghost function CountsIn(record: Record, visited: set<string>, options: seq<string>): map<string, nat>
  {
    map l | l in options :: |HoldersIn(record, visited, l)|
  }

  /** Visiting one more file increments the count of its status, if that is an option. */
  lemma CountsInStep(record: Record, visited: set<string>, f: string, options: seq<string>)
    requires f in record && f !in visited
    ensures var c := CountsIn(record, visited, options);
      CountsIn(record, visited + {f}, options)
      == if record[f] in c then c[record[f] := c[record[f]] + 1] else c
  {
    var c := CountsIn(record, visited, options);
    var c' := CountsIn(record, visited + {f}, options);
    forall l | l in options
      ensures c'[l] == if l == record[f] then c[l] + 1 else c[l]
    {
      HoldersInStep(record, visited, f, l);
    }
  }

  /** Before any file is visited, every option counts zero. */
  lemma CountsInNone(record: Record, options: seq<string>)
    ensures CountsIn(record, {}, options) == map l | l in options :: 0
  {
    forall l | l in options
      ensures HoldersIn(record, {}, l) == {}
    {
    }
  }

  /** Having visited every file, the counts are the reference ones. */
  lemma CountsInAll(record: Record, options: seq<string>)
    ensures CountsIn(record, record.Keys, options) == StatusCounts(record, options)
  {
    forall l | l in options
      ensures HoldersIn(record, record.Keys, l) == Holders(record, l)
    {
    }
  }

  /**
   * The counting loop: start every option at zero, walk the record's
   * values once, and increment the count of a value that is an option.
   */
  method CountStatuses(record: Record, options: seq<string>) returns (counts: map<string, nat>)
    ensures counts == StatusCounts(record, options)
  {
    counts := map l | l in options :: 0;
    var todo := record.Keys;
    ghost var visited: set<string> := {};
    CountsInNone(record, options);
    while todo != {}
      invariant todo + visited == record.Keys && todo !! visited
      invariant counts == CountsIn(record, visited, options)
      decreases todo
    {
      var f :| f in todo;
      var value := record[f];
      CountsInStep(record, visited, f, options);
      if value in counts {
        counts := counts[value := counts[value] + 1];
      }
      todo := todo - {f};
      visited := visited + {f};
    }
    CountsInAll(record, options);
  }

  /**
   * The files shown under one expander: every file whose status is exactly
   * `status`, each once, so the list is as long as the count in the header.
   */
  method ListStatus(record: Record, status: string) returns (files: seq<string>)
    ensures forall f :: f in files <==> f in record && record[f] == status
    ensures forall i, j :: 0 <= i < j < |files| ==> files[i] != files[j]
    ensures |files| == |Holders(record, status)|
  {
    files := [];
    var todo := record.Keys;
    ghost var visited: set<string> := {};
    while todo != {}
      invariant todo + visited == record.Keys && todo !! visited
      invariant forall f :: f in files <==> f in HoldersIn(record, visited, status)
      invariant forall i, j :: 0 <= i < j < |files| ==> files[i] != files[j]
      invariant |files| == |HoldersIn(record, visited, status)|
      decreases todo
    {
      var f :| f in todo;
      HoldersInStep(record, visited, f, status);
      if record[f] == status {
        files := files + [f];
      }
      todo := todo - {f};
      visited := visited + {f};
    }
    assert HoldersIn(record, visited, status) == Holders(record, status);
  }

  lemma {:induction false} SubsetSize(a: set<string>, b: set<string>)
    requires a <= b
    ensures |a| <= |b|
    decreases |b|
  {
    if b != {} {
      var x :| x in b;
      SubsetSize(a - {x}, b - {x});
    }
  }

  predicate Distinct(labels: seq<string>)
  {
    forall i, j :: 0 <= i < j < |labels| ==> labels[i] != labels[j]
  }

  /** The sum of the counts of the given labels. */
  function Total(counts: map<string, nat>, labels: seq<string>): nat
  {
    if |labels| == 0 then 0
    else (if labels[0] in counts then counts[labels[0]] else 0) + Total(counts, labels[1..])
  }

  /** The files whose status is one of `labels`. */
  function Labelled(record: Record, labels: seq<string>): set<string>
  {
    set f | f in record && record[f] in labels
  }

  lemma {:induction false} TotalIsLabelled(record: Record, counts: map<string, nat>, labels: seq<string>)
    requires Distinct(labels)
    requires forall l :: l in labels ==> l in counts && counts[l] == |Holders(record, l)|
    ensures Total(counts, labels) == |Labelled(record, labels)|
    decreases |labels|
  {
    if |labels| == 0 {
      assert Labelled(record, labels) == {};
    } else {
      var rest := labels[1..];
      assert labels == [labels[0]] + rest;
      TotalIsLabelled(record, counts, rest);
      assert Labelled(record, labels) == Holders(record, labels[0]) + Labelled(record, rest);
      assert Holders(record, labels[0]) !! Labelled(record, rest);
    }
  }

  /**
   * The overview adds up: over distinct options the counts sum to the
   * number of entries labelled with an option, so never more than the
   * record holds, and exactly that many once the record is reconciled.
   */
  lemma SummaryTotal(record: Record, options: seq<string>)
    requires Distinct(options)
    ensures Total(StatusCounts(record, options), options) == |Labelled(record, options)|
    ensures Total(StatusCounts(record, options), options) <= |record|
    ensures InVocabulary(record, options) ==> Total(StatusCounts(record, options), options) == |record|
  {
    TotalIsLabelled(record, StatusCounts(record, options), options);
    SubsetSize(Labelled(record, options), record.Keys);
    if InVocabulary(record, options) {
      assert Labelled(record, options) == record.Keys;
    }
  }

  /** The summary of the reconciled scenario record: one file per option. */
  lemma SummaryScenario()
    ensures StatusCounts(map["a.png" := "Blocked", "b.png" := "OK"], ["OK", "Blocked"])
         == map["OK" := 1, "Blocked" := 1]
  {
    var record := map["a.png" := "Blocked", "b.png" := "OK"];
    assert Holders(record, "OK") == {"b.png"};
    assert Holders(record, "Blocked") == {"a.png"};
  }
}
