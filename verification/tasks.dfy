/** Task records as the form hands them to the engine, the engine's error
    outcomes, and the name check that runs before anything else. */
module Tasks {
  import opened Prelude

  /** One row of the task form: a name, the minimum and maximum number of days,
      and the names of the tasks that must finish before this one starts. */
  datatype Task = Task(name: string, lo: real, hi: real, deps: seq<string>)

  /** Every way a run stops before producing results. `InvalidNames` is the
      single message shown for a duplicate or blank name; `UnknownDependency` and
      `NoTasks` stand for the exceptions the engine raises on the first trial
      when a dependency is not a task, or when there is no task at all. */
  datatype Error = InvalidNames | CyclicDependencies | UnknownDependency | NoTasks

  datatype Result<+T> = Ok(value: T) | Err(error: Error)

  /** The names column, `[task["name"] for task in task_data]`. */
  function Names(tasks: seq<Task>): (ns: seq<string>)
    ensures |ns| == |tasks|
    ensures forall i :: 0 <= i < |tasks| ==> ns[i] == tasks[i].name
  {
    seq(|tasks|, i requires 0 <= i < |tasks| => tasks[i].name)
  }

  /** Python's `str.isspace` for one character: the ASCII separators tab to
      carriage return, the information separators 0x1C to 0x1F, space, and the
      Unicode space characters. */
  predicate IsSpace(c: char) {
    var k := c as int;
    || 0x09 <= k <= 0x0D
    || 0x1C <= k <= 0x20
    || k == 0x85 || k == 0xA0 || k == 0x1680
    || 0x2000 <= k <= 0x200A
    || k == 0x2028 || k == 0x2029 || k == 0x202F || k == 0x205F || k == 0x3000
  }

  /** A name that is empty or made only of white space. */
  predicate Blank(s: string) {
    forall i :: 0 <= i < |s| ==> IsSpace(s[i])
  }

  /** `s.lstrip()`: drop the leading white space. */
  function TrimStart(s: string): (r: string)
    ensures |r| <= |s| && r == s[|s| - |r|..]
    ensures forall i :: 0 <= i < |s| - |r| ==> IsSpace(s[i])
    ensures |r| > 0 ==> !IsSpace(r[0])
  {
    if |s| > 0 && IsSpace(s[0]) then TrimStart(s[1..]) else s
  }

  /** `s.rstrip()`: drop the trailing white space. */
  function TrimEnd(s: string): (r: string)
    ensures |r| <= |s| && r == s[..|r|]
    ensures forall i :: |r| <= i < |s| ==> IsSpace(s[i])
    ensures |r| > 0 ==> !IsSpace(r[|r| - 1])
  {
    if |s| > 0 && IsSpace(s[|s| - 1]) then TrimEnd(s[..|s| - 1]) else s
  }

  /** `s.strip()`: drop white space at both ends. What is left is the slice
      of `s` that starts after the leading white space, everything outside it
      is white space, and it neither begins nor ends with white space. */
  function Strip(s: string): (r: string)
    ensures |s| - |TrimStart(s)| + |r| <= |s|
    ensures r == s[|s| - |TrimStart(s)|..|s| - |TrimStart(s)| + |r|]
    ensures forall i :: 0 <= i < |s| - |TrimStart(s)| ==> IsSpace(s[i])
    ensures forall i :: |s| - |TrimStart(s)| + |r| <= i < |s| ==> IsSpace(s[i])
    ensures |r| > 0 ==> !IsSpace(r[0]) && !IsSpace(r[|r| - 1])
  {
    var t := TrimStart(s);
    var r := TrimEnd(t);
    StripShape(s, t, r);
    r
  }

  /** `rstrip` after `lstrip` leaves a slice of `s` with white space only
      outside it and at neither of its ends. */
  lemma StripShape(s: string, t: string, r: string)
    requires |t| <= |s| && t == s[|s| - |t|..]
    requires forall i :: 0 <= i < |s| - |t| ==> IsSpace(s[i])
    requires |r| <= |t| && r == t[..|r|]
    requires forall j :: |r| <= j < |t| ==> IsSpace(t[j])
    requires |r| > 0 ==> !IsSpace(r[|r| - 1])
    requires |t| > 0 ==> !IsSpace(t[0])
    ensures |s| - |t| + |r| <= |s|
    ensures r == s[|s| - |t|..|s| - |t| + |r|]
    ensures forall i :: |s| - |t| + |r| <= i < |s| ==> IsSpace(s[i])
    ensures |r| > 0 ==> !IsSpace(r[0])
  {
    TrimmedSlice(s, t, r);
    TrimmedTail(s, t, r);
  }

  /** A prefix of a suffix of `s` is a slice of `s`. */
  lemma TrimmedSlice(s: string, t: string, r: string)
    requires |t| <= |s| && t == s[|s| - |t|..]
    requires |r| <= |t| && r == t[..|r|]
    ensures r == s[|s| - |t|..|s| - |t| + |r|]
  {
  }

  /** White space that `rstrip` drops from the suffix `t` is white space of
      `s` at the shifted index. */
  lemma TrimmedTail(s: string, t: string, r: string)
    requires |t| <= |s| && t == s[|s| - |t|..]
    requires |r| <= |t|
    requires forall j :: |r| <= j < |t| ==> IsSpace(t[j])
    ensures forall i :: |s| - |t| + |r| <= i < |s| ==> IsSpace(s[i])
  {
    forall i | |s| - |t| + |r| <= i < |s| ensures IsSpace(s[i]) {
      assert t[i - (|s| - |t|)] == s[i];
    }
  }

  /** A character that is not white space survives `lstrip`, shifted left by
      the number of characters dropped. */
  lemma NonSpaceSurvivesTrimStart(s: string, i: nat)
    requires i < |s| && !IsSpace(s[i])
    ensures |s| - |TrimStart(s)| <= i
    ensures TrimStart(s)[i - (|s| - |TrimStart(s)|)] == s[i]
  {
  }

  /** A character that is not white space survives `rstrip` in place. */
  lemma NonSpaceSurvivesTrimEnd(t: string, i: nat)
    requires i < |t| && !IsSpace(t[i])
    ensures i < |TrimEnd(t)|
  {
  }

  /** A blank string loses every character to `lstrip`. */
  lemma {:induction false} BlankTrimsToEmpty(s: string)
    requires Blank(s)
    ensures TrimStart(s) == []
  {
    if |s| > 0 {
      BlankTrimsToEmpty(s[1..]);
    }
  }

  /** `not s.strip()` holds exactly for the blank names. */
  lemma StripEmptyIffBlank(s: string)
    ensures Strip(s) == [] <==> Blank(s)
  {
    if Blank(s) {
      BlankTrimsToEmpty(s);
    } else {
      var i :| 0 <= i < |s| && !IsSpace(s[i]);
      NonSpaceSurvivesTrimStart(s, i);
      var t := TrimStart(s);
      NonSpaceSurvivesTrimEnd(t, i - (|s| - |t|));
    }
  }

  /** The names the engine accepts: pairwise different and none blank. */
  predicate NamesValid(tasks: seq<Task>) {
    && Distinct(Names(tasks))
    && forall i :: 0 <= i < |tasks| ==> !Blank(tasks[i].name)
  }

  /** The check the engine runs first: `len(set(names)) == len(names)` and no
      `not n.strip()`. It accepts exactly the valid name lists. */
  function NamesOk(tasks: seq<Task>): (ok: bool)
    ensures ok <==> NamesValid(tasks)
  {
    var names := Names(tasks);
    CardinalityOfElements(names);
    assert forall i :: 0 <= i < |tasks| ==> (Strip(tasks[i].name) == [] <==> Blank(tasks[i].name)) by {
      forall i | 0 <= i < |tasks| ensures Strip(tasks[i].name) == [] <==> Blank(tasks[i].name) {
        StripEmptyIffBlank(tasks[i].name);
      }
    }
    |Elements(names)| == |names| && forall i :: 0 <= i < |tasks| ==> Strip(tasks[i].name) != []
  }

  /** `{task["name"]: task for task in task_data}`: the keys are the names,
      and every key leads to a row of that name. */
  function TaskMap(tasks: seq<Task>): (m: map<string, Task>)
    ensures m.Keys == Elements(Names(tasks))
    ensures forall n :: n in m ==> m[n].name == n
  {
    if tasks == [] then map[]
    else
      var last := |tasks| - 1;
      assert Names(tasks) == Names(tasks[..last]) + [tasks[last].name];
      TaskMap(tasks[..last])[tasks[last].name := tasks[last]]
  }

  /** With valid names, every task is found under its own name. */
  lemma {:induction false} TaskMapFindsTask(tasks: seq<Task>, i: nat)
    requires Distinct(Names(tasks))
    requires i < |tasks|
    ensures tasks[i].name in TaskMap(tasks) && TaskMap(tasks)[tasks[i].name] == tasks[i]
  {
    var last := |tasks| - 1;
    var init := tasks[..last];
    assert Names(tasks)[i] == tasks[i].name;
    if i < last {
      assert Names(init) == Names(tasks)[..last];
      assert Names(tasks)[last] == tasks[last].name;
      TaskMapFindsTask(init, i);
    }
  }
}
