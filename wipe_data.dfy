/** The data-wipe panel: the selection of resumes, the guard before the confirmation
    dialog, the per-resume deletion run that `confirmDelete` performs, and the colour of
    the alert. The storage and key-value backends are an action log; which backend calls
    fail is a parameter. */
module WipeData {
  import opened JsText
  import opened Records

  /** `prev.filter(p => p !== id)`. */
  function Remove(s: seq<string>, id: string): (r: seq<string>)
    ensures |r| <= |s|
    ensures id !in s ==> r == s
  {
    if s == [] then []
    else
      assert s == [s[0]] + s[1..];
      (if s[0] == id then [] else [s[0]]) + Remove(s[1..], id)
  }

  /** The filter drops every occurrence of `id` and keeps every other element with its
      multiplicity. */
  lemma {:induction false} RemoveMultiset(s: seq<string>, id: string)
    ensures id !in Remove(s, id)
    ensures multiset(Remove(s, id)) == multiset(s)[id := 0]
    ensures forall x :: x != id ==> (x in Remove(s, id) <==> x in s)
  {
    if s != [] {
      RemoveMultiset(s[1..], id);
      var head := if s[0] == id then [] else [s[0]];
      assert s == [s[0]] + s[1..];
      assert Remove(s, id) == head + Remove(s[1..], id);
      assert multiset(s) == multiset{s[0]} + multiset(s[1..]);
      assert multiset(Remove(s, id)) == multiset(head) + multiset(Remove(s[1..], id));
    }
  }

  /** The filter distributes over concatenation, so it keeps the order of the list. */
  lemma {:induction false} RemoveConcat(s: seq<string>, t: seq<string>, id: string)
    ensures Remove(s + t, id) == Remove(s, id) + Remove(t, id)
  {
    if s == [] {
      assert s + t == t;
    } else {
      var head := if s[0] == id then [] else [s[0]];
      assert (s + t)[0] == s[0];
      assert (s + t)[1..] == s[1..] + t;
      RemoveConcat(s[1..], t, id);
      calc {
        Remove(s + t, id);
        head + Remove(s[1..] + t, id);
        head + (Remove(s[1..], id) + Remove(t, id));
        (head + Remove(s[1..], id)) + Remove(t, id);
      }
    }
  }

  /** `toggleResumeSelection(id)`: a selected id is removed, every occurrence of it; an
      unselected one is appended at the end. */
  function Toggled(selected: seq<string>, id: string): (r: seq<string>)
    ensures id in r <==> id !in selected
    ensures forall x :: x != id ==> (x in r <==> x in selected)
    ensures id in selected ==> multiset(r) == multiset(selected)[id := 0]
    ensures id !in selected ==> r == selected + [id]
  {
    if id in selected then RemoveMultiset(selected, id); Remove(selected, id) else selected + [id]
  }

  /** Toggling an unselected id twice gives back the original selection. */
  lemma ToggleTwiceAbsent(selected: seq<string>, id: string)
    requires id !in selected
    ensures Toggled(Toggled(selected, id), id) == selected
  {
    RemoveConcat(selected, [id], id);
    assert Remove([id], id) == [];
  }

  /** Toggling a selected id twice moves it to the end, once. */
  lemma ToggleTwicePresent(selected: seq<string>, id: string)
    requires id in selected
    ensures Toggled(Toggled(selected, id), id) == Remove(selected, id) + [id]
  {
    RemoveMultiset(selected, id);
  }

  /** The alert kinds of the panel. */
  datatype AlertType = Success | Error | Warning | Info

  /** The kind's own name. */
  function AlertTypeName(t: AlertType): string {
    match t
    case Success => "success"
    case Error => "error"
    case Warning => "warning"
    case Info => "info"
  }

  /** `alertColor(t)`: the colour of the alert component. */
  function AlertColor(t: AlertType): (color: string)
    ensures color == "failure" <==> t == Error
    ensures t != Error ==> color == AlertTypeName(t)
  {
    match t
    case Success => "success"
    case Error => "failure"
    case Warning => "warning"
    case Info => "info"
  }

  datatype Alert = Alert(kind: AlertType, message: string, visible: bool)

  /** The panel's React state that the modelled handlers read and write. */
  datatype Panel = Panel(selected: seq<string>, confirmOpen: bool, alert: Alert, deleting: bool)

  const SelectAtLeastOne: string := "Pilih minimal satu data untuk dihapus."

  /** `handleDelete()`: with nothing selected only a warning is shown; otherwise the
      confirmation dialog opens. */
  function HandleDelete(p: Panel): (q: Panel)
    ensures q.selected == p.selected && q.deleting == p.deleting
    ensures p.selected == [] ==> q.confirmOpen == p.confirmOpen && q.alert == Alert(Warning, SelectAtLeastOne, true)
    ensures p.selected != [] ==> q.confirmOpen && q.alert == p.alert
  {
    if |p.selected| == 0 then p.(alert := Alert(Warning, SelectAtLeastOne, true))
    else p.(confirmOpen := true)
  }

  /** The decimal digits of a count, as a template literal prints it: digits only, with no
      leading zero except for zero itself, and read back in base 10 they give the count. */
  function DecimalString(n: nat): (s: string)
    ensures |s| >= 1
    ensures forall i :: 0 <= i < |s| ==> '0' <= s[i] <= '9'
    ensures s[0] == '0' ==> s == "0"
    ensures DigitsValue(s, false) == n
  {
    var d := ['0' + ((n % 10) as char)];
    assert DigitValue(d[0]) == n % 10;
    if n < 10 then
      assert DigitsValue(d, false) == 10 * DigitsValue([], false) + n % 10;
      d
    else
      var h := DecimalString(n / 10);
      assert (h + d)[..|h + d| - 1] == h;
      assert (h + d)[0] == h[0];
      h + d
  }

  /** A backend call: a file deletion or a key-value write. */
  datatype Action = FsDelete(path: string) | KvSet(key: string, value: string)

  /** The calls one resume's `try` block makes when none fails: the resume file when its
      path is set, the image when its path is set and differs, then the blanking of the
      record's key. */
  function ResumePlan(r: Resume): (plan: seq<Action>)
    ensures 1 <= |plan| <= 3
    ensures plan[|plan| - 1] == KvSet(KeyFor(r.id), "")
    ensures forall i :: 0 <= i < |plan| - 1 ==> plan[i].FsDelete? && plan[i].path != ""
  {
    (if r.resumePath != "" then [FsDelete(r.resumePath)] else []) +
    (if r.imagePath != "" && r.imagePath != r.resumePath then [FsDelete(r.imagePath)] else []) +
    [KvSet(KeyFor(r.id), "")]
  }

  /** Which files a resume's plan deletes: the resume file exactly when its path is set,
      the image exactly when its path is set (once only when it is the resume file), and
      no other file; no call is planned twice. */
  lemma ResumePlanDeletes(r: Resume)
    ensures FsDelete(r.resumePath) in ResumePlan(r) <==> r.resumePath != ""
    ensures FsDelete(r.imagePath) in ResumePlan(r) <==> r.imagePath != ""
    ensures forall a :: a in ResumePlan(r) && a.FsDelete? ==> a.path == r.resumePath || a.path == r.imagePath
    ensures forall i, j :: 0 <= i < j < |ResumePlan(r)| ==> ResumePlan(r)[i] != ResumePlan(r)[j]
  {
  }

  /** The calls actually made when the calls in `failing` throw: the plan up to and
      including its first failing call, after which the `catch` moves on. */
  function Attempted(plan: seq<Action>, failing: set<Action>): (done: seq<Action>)
    ensures done <= plan
    ensures done != [] || plan == []
    ensures forall i :: 0 <= i < |done| - 1 ==> done[i] !in failing
    ensures done == plan || done[|done| - 1] in failing
  {
    if plan == [] then []
    else if plan[0] in failing then [plan[0]]
    else [plan[0]] + Attempted(plan[1..], failing)
  }

  /** With no failing call the whole plan is made. */
  lemma {:induction false} AttemptedNoFailure(plan: seq<Action>, failing: set<Action>)
    requires forall a :: a in plan ==> a !in failing
    ensures Attempted(plan, failing) == plan
  {
    if plan != [] {
      AttemptedNoFailure(plan[1..], failing);
    }
  }

  /** `resumes.filter(r => selectedResumes.includes(r.id))`. */
  function Targets(resumes: seq<Resume>, selected: seq<string>): (t: seq<Resume>)
    ensures |t| <= |resumes|
    ensures forall r :: r in t <==> r in resumes && r.id in selected
  {
    if resumes == [] then []
    else
      var last := resumes[|resumes| - 1];
      Targets(resumes[..|resumes| - 1], selected) + (if last.id in selected then [last] else [])
  }

  /** The filter distributes over concatenation: the targets keep the order of `resumes`. */
  lemma {:induction false} TargetsConcat(a: seq<Resume>, b: seq<Resume>, selected: seq<string>)
    ensures Targets(a + b, selected) == Targets(a, selected) + Targets(b, selected)
  {
    if b != [] {
      assert (a + b)[|a + b| - 1] == b[|b| - 1];
      assert (a + b)[..|a + b| - 1] == a + b[..|b| - 1];
      TargetsConcat(a, b[..|b| - 1], selected);
    } else {
      assert a + b == a;
    }
  }

  /** The calls of the whole deletion run over `targets`, resume after resume. */
  function DeletionLog(targets: seq<Resume>, failing: set<Action>): (log: seq<Action>)
    ensures |targets| <= |log| <= 3 * |targets|
  {
    if targets == [] then []
    else
      DeletionLog(targets[..|targets| - 1], failing) + Attempted(ResumePlan(targets[|targets| - 1]), failing)
  }

  /** A failure on one resume does not stop the others: the first call of every targeted
      resume is made. */
  lemma {:induction false} EveryTargetAttempted(targets: seq<Resume>, failing: set<Action>, r: Resume)
    requires r in targets
    ensures ResumePlan(r)[0] in DeletionLog(targets, failing)
  {
    var n := |targets|;
    var init := targets[..n - 1];
    var plan := ResumePlan(targets[n - 1]);
    var done := Attempted(plan, failing);
    assert DeletionLog(targets, failing) == DeletionLog(init, failing) + done;
    if targets[n - 1] == r {
      assert done[0] == plan[0];
      assert done[0] in DeletionLog(targets, failing);
    } else {
      var k :| 0 <= k < n && targets[k] == r;
      assert init[k] == r;
      EveryTargetAttempted(init, failing, r);
    }
  }

  /** Every call made belongs to the plan of a targeted resume: nothing else is touched. */
  lemma {:induction false} LogOnlyTouchesTargets(targets: seq<Resume>, failing: set<Action>, a: Action)
    requires a in DeletionLog(targets, failing)
    ensures exists r :: r in targets && a in ResumePlan(r)
  {
    var n := |targets|;
    var last := targets[n - 1];
    var done := Attempted(ResumePlan(last), failing);
    if a in done {
      assert a in ResumePlan(last);
    } else {
      LogOnlyTouchesTargets(targets[..n - 1], failing, a);
      var r :| r in targets[..n - 1] && a in ResumePlan(r);
      assert r in targets;
    }
  }

  /** A targeted record none of whose file deletions fails has its key blanked. */
  lemma {:induction false} BlankedKeys(targets: seq<Resume>, failing: set<Action>, r: Resume)
    requires r in targets
    requires forall i :: 0 <= i < |ResumePlan(r)| - 1 ==> ResumePlan(r)[i] !in failing
    ensures KvSet(KeyFor(r.id), "") in DeletionLog(targets, failing)
  {
    var n := |targets|;
    var init := targets[..n - 1];
    var done := Attempted(ResumePlan(targets[n - 1]), failing);
    assert DeletionLog(targets, failing) == DeletionLog(init, failing) + done;
    if targets[n - 1] == r {
      var plan := ResumePlan(r);
      assert done == plan by {
        if done != plan {
          assert false;
        }
      }
      assert plan[|plan| - 1] in done;
    } else {
      assert targets == init + [targets[n - 1]];
      assert r in init;
      BlankedKeys(init, failing, r);
    }
  }

  /** Every key-value write of the run blanks a record. */
  lemma KvWritesBlank(targets: seq<Resume>, failing: set<Action>, a: Action)
    requires a in DeletionLog(targets, failing) && a.KvSet?
    ensures a.value == "" && exists r :: r in targets && a.key == KeyFor(r.id)
  {
    LogOnlyTouchesTargets(targets, failing, a);
    var r :| r in targets && a in ResumePlan(r);
    assert a == ResumePlan(r)[|ResumePlan(r)| - 1];
  }

  /** One resume's `try`/`catch`: each awaited call is logged; a failing one throws and
      ends the block. */
  method DeleteOne(r: Resume, failing: set<Action>) returns (done: seq<Action>)
    ensures done == Attempted(ResumePlan(r), failing)
  {
    done := [];
    if r.resumePath != "" {
      done := done + [FsDelete(r.resumePath)];
      if FsDelete(r.resumePath) in failing {
        return;
      }
    }
    if r.imagePath != "" && r.imagePath != r.resumePath {
      done := done + [FsDelete(r.imagePath)];
      if FsDelete(r.imagePath) in failing {
        return;
      }
    }
    done := done + [KvSet(KeyFor(r.id), "")];
  }

  /** `confirmDelete()`: closes the dialog, runs the deletion over the selected resumes in
      `resumes` order, reports the number of selected ids, clears the selection and ends
      the deleting state. */
  method ConfirmDelete(p: Panel, resumes: seq<Resume>, failing: set<Action>) returns (q: Panel, log: seq<Action>)
    ensures log == DeletionLog(Targets(resumes, p.selected), failing)
    ensures q.selected == [] && !q.confirmOpen && !q.deleting
    ensures q.alert == Alert(Success, DecimalString(|p.selected|) + " data berhasil dihapus!", true)
  {
    q := p.(deleting := true, confirmOpen := false);
    var toDelete := Targets(resumes, p.selected);
    log := [];
    for i := 0 to |toDelete|
      invariant log == DeletionLog(toDelete[..i], failing)
    {
      assert toDelete[..i + 1][..i] == toDelete[..i];
      var done := DeleteOne(toDelete[i], failing);
      assert DeletionLog(toDelete[..i + 1], failing) == DeletionLog(toDelete[..i], failing) + done;
      log := log + done;
    }
    assert toDelete[..|toDelete|] == toDelete;
    q := q.(alert := Alert(Success, DecimalString(|p.selected|) + " data berhasil dihapus!", true));
    q := q.(selected := []);
    q := q.(deleting := false);
  }
}
