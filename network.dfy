/** The state behind the TaskNetwork window and its button handlers: the
    tasks drawn as a ring of circles, the observation panel, and the link
    table. The JavaFX nodes are reduced to what the handlers read back: the
    icons (one per task, with its fill colour), the connecting lines, and the
    task the observation panel shows. */
module TaskNetworkApp {
  import opened JavaStrings
  import opened Lists
  import opened LinePairs
  import opened Search

  /** The fill of a task's circle: white, or red while highlighted by a search. */
  datatype Color = White | Red

  /** TaskNetwork.Task: a title and a mutable list of observations. */
  class Task {
    const title: string
    var observations: seq<string>

    constructor (title: string)
      ensures this.title == title && observations == []
    {
      this.title := title;
      observations := [];
    }
  }

  /** TaskNetwork.Link: a row of the link table. */
  class Link {
    const name: string
    const url: string

    constructor (name: string, url: string)
      ensures this.name == name && this.url == url
    {
      this.name := name;
      this.url := url;
    }
  }

  /** The circle drawn for a task, with the caption drawn beside it; a click
      on it opens the task at taskIndex. */
  class Icon {
    const taskIndex: nat
    const caption: string
    var fill: Color

    constructor (taskIndex: nat, caption: string)
      ensures this.taskIndex == taskIndex && this.caption == caption && fill == White
    {
      this.taskIndex := taskIndex;
      this.caption := caption;
      fill := White;
    }
  }

  /** The tasks and links start() puts in place before the first redraw. */
  const InitialTitles: seq<string> :=
    ["Gerenciar E-mails", "Organizar Agenda", "Atualizar Relatórios", "Manutenção",
     "Reunião de Equipe", "Atender Chamadas", "Monitorar Sistema"]
  const InitialLinks: seq<(string, string)> :=
    [("Google", "https://www.google.com"), ("GitHub", "https://www.github.com")]

  class TaskNetwork {
    var tasks: seq<Task>
    var links: seq<Link>
    /** The circles of the last redraw, and the lines between them as pairs of icon indices. */
    var icons: seq<Icon>
    var lines: seq<(nat, nat)>
    /** The observation panel: the task its buttons act on (null until a task
        is opened), the index it was opened with, and the observations listed. */
    var panel: Task?
    var panelIndex: nat
    var shownObservations: seq<string>
    /** The rows of the link table, as its last table.getItems().setAll(links) left them. */
    var tableRows: seq<Link>

    /** Every task and link is its own object, and a panel that shows a task
        still in the list shows it at its index, with its current observations. */
    ghost predicate ModelValid()
      reads this`tasks, this`links, this`panel, this`panelIndex, this`shownObservations, panel
    {
      && Distinct(tasks)
      && Distinct(links)
      && (PanelCurrent() ==>
            panelIndex < |tasks| && tasks[panelIndex] == panel && shownObservations == panel.observations)
    }

    /** What a redraw leaves behind: exactly one icon per task, icon i built
        for task i, and the lines of every pair of icons. */
    ghost predicate Drawn()
      reads this`tasks, this`icons, this`lines
    {
      && Distinct(icons)
      && |icons| == |tasks|
      && (forall i :: 0 <= i < |icons| ==> icons[i].taskIndex == i && icons[i].caption == tasks[i].title)
      && lines == Connections(|icons|)
    }

    ghost predicate Valid()
      reads this, panel
    {
      ModelValid() && Drawn()
    }

    /** The panel shows a task that is still in the list. */
    ghost predicate PanelCurrent()
      reads this`tasks, this`panel
    {
      panel != null && panel in tasks
    }

    function Titles(): (r: seq<string>)
      reads this`tasks
      ensures |r| == |tasks| && forall i :: 0 <= i < |tasks| ==> r[i] == tasks[i].title
    {
      var ts := tasks;
      seq(|ts|, i requires 0 <= i < |ts| => ts[i].title)
    }

    ghost function Observations(): (r: seq<seq<string>>)
      reads this`tasks, tasks
      ensures |r| == |tasks| && forall i :: 0 <= i < |tasks| ==> r[i] == tasks[i].observations
    {
      var ts := tasks;
      seq(|ts|, i reads ts requires 0 <= i < |ts| => ts[i].observations)
    }

    /** The indices of the red circles. */
    ghost function HighlightedIcons(): set<nat>
      reads this`icons, icons
    {
      set i: nat | i < |icons| && icons[i].fill == Red
    }

    /** start(): the seven initial tasks and two links, in this order, then
        the first redraw. */
    constructor ()
      ensures Valid()
      ensures Titles() == InitialTitles
      ensures forall i :: 0 <= i < |tasks| ==> fresh(tasks[i]) && tasks[i].observations == []
      ensures |links| == |InitialLinks|
      ensures forall i :: 0 <= i < |links| ==> (links[i].name, links[i].url) == InitialLinks[i]
      ensures panel == null && shownObservations == []
      ensures HighlightedIcons() == {}
      ensures tableRows == []
    {
      tasks, links, icons, lines := [], [], [], [];
      panel, panelIndex, shownObservations := null, 0, [];
      tableRows := [];
      new;
      ShowLinks();
      AddInitialTasks(InitialTitles);
      AddInitialLinks(InitialLinks);
      DrawTasksInCircle();
    }

    /** start() as evidently intended: the same, except that the link table
        is filled after the two links exist, so that it lists them. */
    constructor WithLinkTable()
      ensures Valid()
      ensures Titles() == InitialTitles
      ensures forall i :: 0 <= i < |tasks| ==> fresh(tasks[i]) && tasks[i].observations == []
      ensures |links| == |InitialLinks|
      ensures forall i :: 0 <= i < |links| ==> (links[i].name, links[i].url) == InitialLinks[i]
      ensures panel == null && shownObservations == []
      ensures HighlightedIcons() == {}
      ensures tableRows == links
    {
      tasks, links, icons, lines := [], [], [], [];
      panel, panelIndex, shownObservations := null, 0, [];
      tableRows := [];
      new;
      AddInitialTasks(InitialTitles);
      AddInitialLinks(InitialLinks);
      DrawTasksInCircle();
      ShowLinks();
    }

    /** table.getItems().setAll(links): the table now lists the links as
        they are at this moment; later changes to links do not reach it. */
    method ShowLinks()
      modifies this`tableRows
      ensures tableRows == links
    {
      tableRows := links;
    }

    /** The tasks.add calls of start(), one per title, in order. */
    method AddInitialTasks(titles: seq<string>)
      requires ModelValid() && tasks == []
      modifies this`tasks
      ensures ModelValid()
      ensures Titles() == titles
      ensures forall i :: 0 <= i < |tasks| ==> fresh(tasks[i]) && tasks[i].observations == []
    {
      for k := 0 to |titles|
        invariant ModelValid()
        invariant Titles() == titles[..k]
        invariant forall i :: 0 <= i < |tasks| ==> fresh(tasks[i]) && tasks[i].observations == []
      {
        AppendTask(titles[k]);
        assert titles[..k + 1] == titles[..k] + [titles[k]];
      }
    }

    /** The links.add calls of start(), one per (name, url), in order. */
    method AddInitialLinks(pairs: seq<(string, string)>)
      requires ModelValid() && links == []
      modifies this`links
      ensures ModelValid()
      ensures |links| == |pairs|
      ensures forall i :: 0 <= i < |links| ==> (links[i].name, links[i].url) == pairs[i]
    {
      for k := 0 to |pairs|
        invariant ModelValid()
        invariant |links| == k
        invariant forall i :: 0 <= i < k ==> (links[i].name, links[i].url) == pairs[i]
      {
        AppendLink(pairs[k].0, pairs[k].1);
      }
    }

    /** tasks.add(new Task(title)): a fresh task without observations at the end. */
    method AppendTask(title: string)
      requires ModelValid()
      modifies this`tasks
      ensures ModelValid()
      ensures |tasks| == |old(tasks)| + 1 && tasks[..|old(tasks)|] == old(tasks)
      ensures fresh(tasks[|old(tasks)|]) && tasks[|old(tasks)|].observations == []
      ensures Titles() == old(Titles()) + [title]
      ensures Observations() == old(Observations()) + [[]]
    {
      var task := new Task(title);
      tasks := tasks + [task];
      assert Observations() == old(Observations()) + [[]];
      assert Titles() == old(Titles()) + [title];
    }

    /** links.add(new Link(name, url)). */
    method AppendLink(name: string, url: string)
      requires ModelValid()
      modifies this`links
      ensures ModelValid()
      ensures |links| == |old(links)| + 1 && links[..|old(links)|] == old(links)
      ensures fresh(links[|old(links)|]) && links[|old(links)|].name == name && links[|old(links)|].url == url
    {
      var link := new Link(name, url);
      links := links + [link];
    }

    /** drawTasksInCircle: replaces the icons by one fresh white icon per
        task, in task order, then draws the connections. */
    method DrawTasksInCircle()
      requires ModelValid()
      modifies this`icons, this`lines
      ensures Valid()
      ensures tasks == old(tasks) && links == old(links)
      ensures panel == old(panel) && panelIndex == old(panelIndex) && shownObservations == old(shownObservations)
      ensures forall i :: 0 <= i < |icons| ==> fresh(icons[i]) && icons[i].fill == White
      ensures HighlightedIcons() == {}
    {
      icons := [];
      var i := 0;
      while i < |tasks|
        invariant 0 <= i <= |tasks| && |icons| == i
        invariant tasks == old(tasks) && links == old(links)
        invariant panel == old(panel) && panelIndex == old(panelIndex) && shownObservations == old(shownObservations)
        invariant Distinct(icons)
        invariant forall k :: 0 <= k < i ==>
          fresh(icons[k]) && icons[k].fill == White && icons[k].taskIndex == k && icons[k].caption == tasks[k].title
      {
        var circle := new Icon(i, tasks[i].title);
        icons := icons + [circle];
        i := i + 1;
      }
      DrawConnections();
    }

    /** drawConnections: one line for each pair of icons i < j. */
    method DrawConnections()
      modifies this`lines
      ensures lines == Connections(|icons|)
    {
      lines := ConnectionLines(|icons|);
    }

    /** After any redraw, the tasks are joined by |tasks|(|tasks|-1)/2
        lines, one for each pair of distinct tasks. */
    lemma LinesOfDrawing()
      requires Valid()
      ensures |lines| == |tasks| * (|tasks| - 1) / 2
      ensures forall i: nat, j: nat :: (i, j) in lines <==> i < j < |tasks|
    {
      ConnectionsCount(|icons|);
      forall i: nat, j: nat ensures (i, j) in lines <==> i < j < |tasks| {
        ConnectionsExactly(|icons|, i, j);
      }
    }

    /** handleTaskClick(k): the panel now lists task k. For an index past
        the end, tasks.get throws before the panel is touched, so the panel
        stays as it was and has to be consistent already. The panel's own
        buttons call it right after changing the observations of the panel's
        task, when the panel's rows are out of date: hence ModelValid() is
        asked only for an index past the end, where nothing repairs it. */
    method HandleTaskClick(k: nat)
      requires Distinct(tasks) && Distinct(links)
      requires k >= |tasks| ==> ModelValid()
      modifies this`panel, this`panelIndex, this`shownObservations
      ensures ModelValid()
      ensures k < |tasks| ==> panel == tasks[k] && panelIndex == k && shownObservations == tasks[k].observations
      ensures k >= |tasks| ==>
        panel == old(panel) && panelIndex == old(panelIndex) && shownObservations == old(shownObservations)
    {
      if k < |tasks| {
        panel := tasks[k];
        panelIndex := k;
        shownObservations := panel.observations;
      }
    }

    /** A click on icon i opens the task it was drawn for. */
    method ClickIcon(i: nat)
      requires Valid() && i < |icons|
      modifies this`panel, this`panelIndex, this`shownObservations
      ensures Valid()
      ensures panel == tasks[i] && panelIndex == i && shownObservations == tasks[i].observations
    {
      HandleTaskClick(icons[i].taskIndex);
    }

    /** The "Adicionar Tarefa" handler. */
    method AddTask(text: string)
      requires Valid()
      modifies this`tasks, this`icons, this`lines
      ensures Valid()
      ensures var title := Trim(text);
        && (title == [] ==> tasks == old(tasks) && icons == old(icons) && lines == old(lines))
        && (title != [] ==>
              && |tasks| == |old(tasks)| + 1 && tasks[..|old(tasks)|] == old(tasks)
              && fresh(tasks[|old(tasks)|]) && tasks[|old(tasks)|].observations == []
              && (forall i :: 0 <= i < |icons| ==> fresh(icons[i]) && icons[i].fill == White))
        && Titles() == (if title == [] then old(Titles()) else old(Titles()) + [title])
        && Observations() == (if title == [] then old(Observations()) else old(Observations()) + [[]])
      ensures links == old(links)
      ensures panel == old(panel) && panelIndex == old(panelIndex) && shownObservations == old(shownObservations)
    {
      var title := Trim(text);
      if title != [] {
        AppendTask(title);
        DrawTasksInCircle();
      }
    }

    /** The "Remover Última" handler. A panel left open on the removed task
        stays open, on a task that is no longer in the list. */
    method RemoveLastTask()
      requires Valid()
      modifies this`tasks, this`icons, this`lines
      ensures Valid()
      ensures old(tasks) == [] ==> tasks == [] && icons == old(icons) && lines == old(lines)
      ensures old(tasks) != [] ==>
        && tasks == old(tasks)[..|old(tasks)| - 1]
        && Titles() == old(Titles())[..|old(tasks)| - 1]
        && Observations() == old(Observations())[..|old(tasks)| - 1]
        && (forall i :: 0 <= i < |icons| ==> fresh(icons[i]) && icons[i].fill == White)
      ensures old(tasks) != [] && old(panel) == old(tasks)[|old(tasks)| - 1] ==> !PanelCurrent()
      ensures links == old(links)
      ensures panel == old(panel) && panelIndex == old(panelIndex) && shownObservations == old(shownObservations)
    {
      if tasks != [] {
        tasks := tasks[..|tasks| - 1];
        DrawTasksInCircle();
        assert Observations() == old(Observations())[..|old(tasks)| - 1];
      }
    }

    /** resetHighlighting: every circle back to white, then a redraw. */
    method ResetHighlighting()
      requires Valid()
      modifies this`icons, this`lines, icons
      ensures Valid()
      ensures forall i :: 0 <= i < |old(icons)| ==> old(icons)[i].fill == White
      ensures forall i :: 0 <= i < |icons| ==> fresh(icons[i]) && icons[i].fill == White
      ensures tasks == old(tasks) && links == old(links)
      ensures panel == old(panel) && panelIndex == old(panelIndex) && shownObservations == old(shownObservations)
    {
      forall i | 0 <= i < |icons| {
        icons[i].fill := White;
      }
      DrawTasksInCircle();
    }

    /** The inner loop of searchObservations over the observations of task
        i: tells whether one matches, and opens task i in the panel at every
        match (highlightObservation; the restyling of its labels is not
        modelled). */
    method HighlightMatches(i: nat, query: string) returns (highlighted: bool)
      requires ModelValid() && i < |tasks|
      modifies this`panel, this`panelIndex, this`shownObservations
      ensures ModelValid()
      ensures highlighted == AnyMatch(tasks[i].observations, query)
      ensures highlighted ==> panel == tasks[i] && panelIndex == i && shownObservations == tasks[i].observations
      ensures !highlighted ==>
        panel == old(panel) && panelIndex == old(panelIndex) && shownObservations == old(shownObservations)
    {
      var task := tasks[i];
      highlighted := false;
      var j := 0;
      while j < |task.observations|
        invariant 0 <= j <= |task.observations|
        invariant ModelValid()
        invariant highlighted <==> exists m :: 0 <= m < j && Matches(task.observations[m], query)
        invariant highlighted ==> panel == task && panelIndex == i && shownObservations == task.observations
        invariant !highlighted ==>
          panel == old(panel) && panelIndex == old(panelIndex) && shownObservations == old(shownObservations)
      {
        if Matches(task.observations[j], query) {
          highlighted := true;
          HandleTaskClick(i);
        }
        j := j + 1;
      }
    }

    /** Turns circle i red; the other circles keep their colour. */
    method PaintRed(i: nat)
      requires Drawn() && i < |icons|
      modifies icons[i]
      ensures icons[i].fill == Red
      ensures forall k :: 0 <= k < |icons| && k != i ==> icons[k].fill == old(icons[k].fill)
    {
      icons[i].fill := Red;
      forall k | 0 <= k < |icons| && k != i ensures icons[k].fill == old(icons[k].fill) {
        assert icons[k] != icons[i];
      }
    }

    /** What searchObservations has done after visiting the first i tasks,
        where hits[k] tells whether task k has a matching observation: the
        circles of the matching tasks among them are red, all others white;
        the panel shows the last of them, or is as it was (panel0, index0,
        shown0) when none matched. */
    ghost predicate PaintedUpTo(i: nat, hits: seq<bool>, last: int, panel0: Task?, index0: nat, shown0: seq<string>)
      reads this`tasks, tasks, this`icons, icons, this`panel, this`panelIndex, this`shownObservations
    {
      && i <= |icons| == |hits| == |tasks|
      && -1 <= last < i
      && (forall k :: 0 <= k < |icons| ==> (icons[k].fill == Red <==> k < i && hits[k]))
      && (forall k :: last < k < i ==> !hits[k])
      && (last == -1 ==> panel == panel0 && panelIndex == index0 && shownObservations == shown0)
      && (last >= 0 ==> hits[last] && panel == tasks[last] && panelIndex == last && shownObservations == tasks[last].observations)
    }

    /** One pass of the outer loop of searchObservations: the inner loop over
        the observations of task i, then its circle turns red on a match. */
    method VisitTask(i: nat, query: string, ghost hits: seq<bool>, ghost last: int,
                     ghost panel0: Task?, ghost index0: nat, ghost shown0: seq<string>)
      returns (ghost last': int)
      requires Valid() && i < |tasks| && |hits| == |tasks| && hits[i] == AnyMatch(tasks[i].observations, query)
      requires PaintedUpTo(i, hits, last, panel0, index0, shown0)
      modifies this`panel, this`panelIndex, this`shownObservations, icons[i]
      ensures Valid() && PaintedUpTo(i + 1, hits, last', panel0, index0, shown0)
    {
      var highlighted := HighlightMatches(i, query);
      last' := last;
      if highlighted {
        PaintRed(i);
        last' := i;
      }
    }

    /** The loop of searchObservations over the tasks, on white circles:
        the circle of every task with a matching observation turns red, and
        each match opens its task in the panel. */
    method PaintMatches(query: string)
      requires Valid()
      requires forall i :: 0 <= i < |icons| ==> icons[i].fill == White
      modifies this`panel, this`panelIndex, this`shownObservations, icons
      ensures Valid()
      ensures HighlightedIcons() == Highlighted(Observations(), query)
      ensures var h := Highlighted(Observations(), query);
        && (h != {} ==>
              && panelIndex in h && (forall i :: i in h ==> i <= panelIndex)
              && panel == tasks[panelIndex] && shownObservations == panel.observations)
        && (h == {} ==>
              panel == old(panel) && panelIndex == old(panelIndex) && shownObservations == old(shownObservations))
    {
      ghost var obs := Observations();
      ghost var hits := seq(|obs|, k requires 0 <= k < |obs| => AnyMatch(obs[k], query));
      ghost var last: int := -1;
      var i := 0;
      while i < |tasks|
        invariant 0 <= i <= |tasks|
        invariant Valid() && Observations() == obs
        invariant PaintedUpTo(i, hits, last, old(panel), old(panelIndex), old(shownObservations))
      {
        last := VisitTask(i, query, hits, last, old(panel), old(panelIndex), old(shownObservations));
        i := i + 1;
      }
      ghost var h := Highlighted(obs, query);
      assert HighlightedIcons() == h;
      if last >= 0 {
        assert last in h;
      }
    }

    /** searchObservations(query): after a reset, the circle of every task
        with a matching observation turns red, and each match opens its task
        in the panel, so the panel ends on the last matching task. */
    method SearchObservations(query: string)
      requires Valid()
      modifies this`icons, this`lines, this`panel, this`panelIndex, this`shownObservations, icons
      ensures Valid()
      ensures tasks == old(tasks) && links == old(links) && Observations() == old(Observations())
      ensures forall i :: 0 <= i < |icons| ==> fresh(icons[i])
      ensures HighlightedIcons() == Highlighted(Observations(), query)
      ensures var h := Highlighted(Observations(), query);
        && (h != {} ==>
              && panelIndex in h && (forall i :: i in h ==> i <= panelIndex)
              && panel == tasks[panelIndex] && shownObservations == panel.observations)
        && (h == {} ==>
              panel == old(panel) && panelIndex == old(panelIndex) && shownObservations == old(shownObservations))
    {
      ResetHighlighting();
      PaintMatches(query);
    }

    /** The "Pesquisar" handler: search for the trimmed query, or just reset
        the highlight when it is empty. */
    method Search(text: string)
      requires Valid()
      modifies this`icons, this`lines, this`panel, this`panelIndex, this`shownObservations, icons
      ensures Valid()
      ensures tasks == old(tasks) && links == old(links) && Observations() == old(Observations())
      ensures forall i :: 0 <= i < |icons| ==> fresh(icons[i])
      ensures var query := Trim(text);
        HighlightedIcons() == if query == [] then {} else Highlighted(Observations(), query)
      ensures var query := Trim(text);
        var h := if query == [] then {} else Highlighted(Observations(), query);
        && (h != {} ==>
              && panelIndex in h && (forall i :: i in h ==> i <= panelIndex)
              && panel == tasks[panelIndex] && shownObservations == panel.observations)
        && (h == {} ==>
              panel == old(panel) && panelIndex == old(panelIndex) && shownObservations == old(shownObservations))
    {
      var query := Trim(text);
      if query != [] {
        SearchObservations(query);
      } else {
        ResetHighlighting();
        assert HighlightedIcons() == {};
      }
    }

    /** The common tail of the panel's two handlers: the panel's task now
        has the observations newObs (changed in place, through the task object
        the panel holds), and the panel is reopened at the index it was opened
        with. When that task was removed from the list meanwhile, the change
        reaches no listed task, and the reopen shows whatever task now has
        that index, or fails when there is none. */
    method EditPanelTask(newObs: seq<string>)
      requires Valid() && panel != null
      modifies this`panel, this`panelIndex, this`shownObservations, panel
      ensures Valid()
      ensures old(panel).observations == newObs
      ensures old(PanelCurrent()) ==>
        && PanelCurrent() && panel == old(panel) && panelIndex == old(panelIndex)
        && Observations() == old(Observations())[panelIndex := newObs]
      ensures !old(PanelCurrent()) ==>
        && Observations() == old(Observations())
        && (old(panelIndex) >= |tasks| ==>
              panel == old(panel) && panelIndex == old(panelIndex) && shownObservations == old(shownObservations))
        && (old(panelIndex) < |tasks| ==>
              panel == tasks[old(panelIndex)] && panelIndex == old(panelIndex) && shownObservations == panel.observations)
    {
      ghost var before := Observations();
      ghost var current := PanelCurrent();
      var k := panelIndex;
      panel.observations := newObs;
      if current {
        forall i | 0 <= i < |tasks| ensures Observations()[i] == before[k := newObs][i] {
          if i != k { assert tasks[i] != panel; }
        }
        assert Observations() == before[k := newObs];
      } else {
        forall i | 0 <= i < |tasks| ensures Observations()[i] == before[i] {
          assert tasks[i] != panel;
        }
        assert Observations() == before;
      }
      HandleTaskClick(k);
    }

    /** The panel's "Adicionar Observação" handler: appends the trimmed text
        to the panel's task and reopens the panel at its index. */
    method AddObservation(text: string)
      requires Valid() && panel != null
      modifies this`panel, this`panelIndex, this`shownObservations, panel
      ensures Valid()
      ensures HighlightedIcons() == old(HighlightedIcons())
      ensures var obs := Trim(text);
        old(panel).observations == if obs == [] then old(panel.observations) else old(panel.observations) + [obs]
      ensures var obs := Trim(text);
        old(PanelCurrent()) ==>
          && PanelCurrent() && panel == old(panel) && panelIndex == old(panelIndex)
          && Observations() == (if obs == [] then old(Observations())
                                else old(Observations())[panelIndex := old(Observations())[panelIndex] + [obs]])
      ensures var obs := Trim(text);
        !old(PanelCurrent()) ==>
          && Observations() == old(Observations())
          && (obs == [] || old(panelIndex) >= |tasks| ==>
                panel == old(panel) && panelIndex == old(panelIndex) && shownObservations == old(shownObservations))
          && (obs != [] && old(panelIndex) < |tasks| ==>
                panel == tasks[old(panelIndex)] && shownObservations == panel.observations)
    {
      var obs := Trim(text);
      if obs != [] {
        EditPanelTask(panel.observations + [obs]);
      }
    }

    /** The panel's "Remover" button of row j: removes observation j of the
        panel's task and reopens the panel. An index past the end of the
        task's list makes ArrayList.remove throw, and nothing changes. */
    method RemoveObservation(j: nat)
      requires Valid() && panel != null && j < |shownObservations|
      modifies this`panel, this`panelIndex, this`shownObservations, panel
      ensures Valid()
      ensures HighlightedIcons() == old(HighlightedIcons())
      ensures old(panel).observations ==
        if j < |old(panel.observations)| then RemoveAt(old(panel.observations), j) else old(panel.observations)
      ensures old(PanelCurrent()) ==>
        && j < |old(panel.observations)|
        && PanelCurrent() && panel == old(panel) && panelIndex == old(panelIndex)
        && Observations() == old(Observations())[panelIndex := RemoveAt(old(Observations())[panelIndex], j)]
      ensures !old(PanelCurrent()) ==>
        && Observations() == old(Observations())
        && (j >= |old(panel.observations)| || old(panelIndex) >= |tasks| ==>
              panel == old(panel) && panelIndex == old(panelIndex) && shownObservations == old(shownObservations))
        && (j < |old(panel.observations)| && old(panelIndex) < |tasks| ==>
              panel == tasks[old(panelIndex)] && shownObservations == panel.observations)
    {
      if j < |panel.observations| {
        EditPanelTask(RemoveAt(panel.observations, j));
      }
    }

    /** The "Adicionar Link" handler. */
    method AddLink(nameText: string, urlText: string)
      requires Valid()
      modifies this`links, this`tableRows
      ensures Valid()
      ensures var name, url := Trim(nameText), Trim(urlText);
        && (name == [] || url == [] ==> links == old(links))
        && (name != [] && url != [] ==>
              && |links| == |old(links)| + 1 && links[..|old(links)|] == old(links)
              && fresh(links[|old(links)|])
              && links[|old(links)|].name == name && links[|old(links)|].url == url)
      ensures var name, url := Trim(nameText), Trim(urlText);
        tableRows == if name != [] && url != [] then links else old(tableRows)
    {
      var name := Trim(nameText);
      var url := Trim(urlText);
      if name != [] && url != [] {
        AppendLink(name, url);
        ShowLinks();
      }
    }

    /** The "Remover Link Selecionado" handler: removes the selected link
        object, if a row is selected. Only a row of the table can be selected. */
    method RemoveSelectedLink(selected: Link?)
      requires Valid()
      requires selected == null || selected in tableRows
      modifies this`links, this`tableRows
      ensures Valid()
      ensures links == if selected == null then old(links) else RemoveFirst(old(links), selected as Link)
      ensures selected != null ==> selected !in links && forall l :: l in links <==> l in old(links) && l != selected
      ensures tableRows == if selected == null then old(tableRows) else links
    {
      if selected != null {
        var link: Link := selected;
        RemoveFirstDistinct(links, link);
        links := RemoveFirst(links, link);
        ShowLinks();
      }
    }
  }

  /** Right after start-up the link table has no row, although links holds
      Google and GitHub: the table was filled before they were added, so
      neither can be selected and removed until a link is added. */
  method LinkTableEmptyAtStart() returns (net: TaskNetwork)
    ensures |net.links| == 2 && net.links[0].name == "Google" && net.links[1].name == "GitHub"
    ensures net.tableRows == []
  {
    net := new TaskNetwork();
  }

  /** The intended start-up lists both links in the table. */
  method LinkTableFilledAtStart() returns (net: TaskNetwork)
    ensures net.tableRows == net.links
    ensures |net.tableRows| == 2 && net.tableRows[0].name == "Google" && net.tableRows[1].name == "GitHub"
  {
    net := new TaskNetwork.WithLinkTable();
  }

  /** Start, open the last of the seven tasks, then remove it: the panel
      stays open on a task that is no longer in the list. */
  method OpenAndRemoveLast() returns (net: TaskNetwork)
    ensures net.Valid() && fresh(net) && fresh(net.panel)
    ensures |net.tasks| == 6 && net.panel != null && !net.PanelCurrent() && net.panelIndex == 6
    ensures net.panel.observations == [] && net.shownObservations == []
    ensures forall i :: 0 <= i < |net.tasks| ==> net.tasks[i].observations == []
  {
    net := new TaskNetwork();
    net.ClickIcon(6);
    net.RemoveLastTask();
  }

  /** Then add an observation from the panel that is still open: the text
      goes to the removed task, and the reopen at index 6 fails, so the
      panel stays on the removed task and no listed task changes. */
  method StalePanelAfterRemove() returns (net: TaskNetwork)
    ensures net.Valid()
    ensures |net.tasks| == 6 && net.panel != null && !net.PanelCurrent() && net.panelIndex == 6
    ensures net.panel.observations == ["nota"] && net.shownObservations == []
    ensures forall i :: 0 <= i < |net.tasks| ==> net.tasks[i].observations == []
  {
    net := OpenAndRemoveLast();
    TrimPadded();
    ghost var before := net.Observations();
    net.AddObservation(" nota ");
    assert net.Observations() == before;
  }
}
