/**
 * The variables `CustomPromptTemplate.format` computes before it fills in
 * the agent's prompt. They are the scratchpad of earlier steps, the `tools`
 * block, and the comma-separated tool names. Filling the template itself
 * (Python's `str.format`) is not modelled.
 */
module PromptTemplate {
  import opened Wrappers
  import opened Text
  import opened OutputParser

  /** A tool as the prompt sees it: its name and its description. The
      callables behind it are outside the model. */
  datatype Tool = Tool(name: string, description: string)

  /** One intermediate step: the action taken and the tool's observation. */
  datatype Step = Step(action: AgentAction, observation: string)

  /** What one step adds to the scratchpad. */
  function StepText(step: Step): string {
    step.action.log + "\nObservation: " + step.observation + "\nThought: "
  }

  /** The scratchpad, as a reference definition: each step's text, in order. */
  function Scratchpad(steps: seq<Step>): string
    decreases |steps|
  {
    if |steps| == 0 then "" else StepText(steps[0]) + Scratchpad(steps[1..])
  }

  /** Appending a step extends the scratchpad by exactly that step's text. */
  lemma {:induction false} ScratchpadAppend(steps: seq<Step>, step: Step)
    ensures Scratchpad(steps + [step]) == Scratchpad(steps) + StepText(step)
    decreases |steps|
  {
    if |steps| == 0 {
      assert steps + [step] == [step];
    } else {
      assert (steps + [step])[1..] == steps[1..] + [step];
      ScratchpadAppend(steps[1..], step);
    }
  }

  /** The scratchpad of two runs of steps is the two scratchpads in order. */
  lemma {:induction false} ScratchpadConcat(first: seq<Step>, second: seq<Step>)
    ensures Scratchpad(first + second) == Scratchpad(first) + Scratchpad(second)
    decreases |first|
  {
    if |first| == 0 {
      assert first + second == second;
    } else {
      assert (first + second)[1..] == first[1..] + second;
      ScratchpadConcat(first[1..], second);
    }
  }

  /** The scratchpad of the first k steps is a prefix of the whole one. */
  lemma {:induction false} ScratchpadPrefix(steps: seq<Step>, k: nat)
    requires k <= |steps|
    ensures Scratchpad(steps[..k]) <= Scratchpad(steps)
  {
    assert steps == steps[..k] + steps[k..];
    ScratchpadConcat(steps[..k], steps[k..]);
  }

  /** The loop in `format` that builds the `agent_scratchpad` variable. */
  method BuildScratchpad(steps: seq<Step>) returns (thoughts: string)
    ensures thoughts == Scratchpad(steps)
  {
    thoughts := "";
    for i := 0 to |steps|
      invariant thoughts == Scratchpad(steps[..i])
    {
      ghost var before := thoughts;
      thoughts := thoughts + steps[i].action.log;
      thoughts := thoughts + "\nObservation: " + steps[i].observation + "\nThought: ";
      assert thoughts == before + StepText(steps[i]);
      ScratchpadAppend(steps[..i], steps[i]);
      assert steps[..i + 1] == steps[..i] + [steps[i]];
    }
    assert steps[..|steps|] == steps;
  }

  /** One line of the `tools` variable. */
  function ToolEntry(tool: Tool): string {
    tool.name + ": " + tool.description
  }

  /** The tools' lines, in list order. */
  function ToolEntries(tools: seq<Tool>): (entries: seq<string>)
    ensures |entries| == |tools|
  {
    seq(|tools|, i requires 0 <= i < |tools| => ToolEntry(tools[i]))
  }

  /** The tools' names, in list order. */
  function ToolNameList(tools: seq<Tool>): (names: seq<string>)
    ensures |names| == |tools|
  {
    seq(|tools|, i requires 0 <= i < |tools| => tools[i].name)
  }

  /** The `tools` variable: the lines joined with newlines. */
  function ToolsBlock(tools: seq<Tool>): string {
    Join(ToolEntries(tools), "\n")
  }

  /** The `tool_names` variable: the names joined with ", ". */
  function ToolNames(tools: seq<Tool>): string {
    Join(ToolNameList(tools), ", ")
  }

  /** Splitting the `tools` variable at newlines gives back one line per
      tool, in list order, when no name or description has a newline. */
  lemma ToolsBlockLines(tools: seq<Tool>)
    requires |tools| > 0
    requires forall i :: 0 <= i < |tools| ==> '\n' !in tools[i].name && '\n' !in tools[i].description
    ensures Split(ToolsBlock(tools), "\n") == ToolEntries(tools)
  {
    var entries := ToolEntries(tools);
    forall i | 0 <= i < |entries|
      ensures !Contains(entries[i], "\n")
    {
      assert entries[i] == tools[i].name + ": " + tools[i].description;
      ContainsChar(entries[i], '\n');
    }
    SplitJoin(entries, "\n");
  }

  /** Splitting the `tool_names` variable at ", " gives back the names, in
      list order, when no name contains ", ". */
  lemma ToolNamesList(tools: seq<Tool>)
    requires |tools| > 0
    requires forall i :: 0 <= i < |tools| ==> !Contains(tools[i].name, ", ")
    ensures Split(ToolNames(tools), ", ") == ToolNameList(tools)
  {
    SplitJoin(ToolNameList(tools), ", ");
  }

  /** With no tools both variables are empty. */
  lemma NoToolsNoText()
    ensures ToolsBlock([]) == "" && ToolNames([]) == ""
  {
  }

  /** The keyword arguments `format` removes or sets. */
  predicate Rewritten(key: string) {
    key in {"intermediate_steps", "agent_scratchpad", "tools", "tool_names"}
  }

  /** The keyword arguments `format` passes to the template. The
      "intermediate_steps" argument holds the steps; its value is `steps`
      here, since the other arguments are strings. Without that argument
      `kwargs.pop` raises `KeyError`, which is `None` here. Otherwise the
      arguments lose "intermediate_steps" and gain the three computed
      variables, and every other argument passes through unchanged. */
  function Variables(tools: seq<Tool>, steps: seq<Step>, kwargs: map<string, string>): (r: Option<map<string, string>>)
    ensures r.None? <==> "intermediate_steps" !in kwargs
    ensures r.Some? ==> r.value.Keys == kwargs.Keys - {"intermediate_steps"} + {"agent_scratchpad", "tools", "tool_names"}
    ensures r.Some? ==> forall k :: k in kwargs && !Rewritten(k) ==> r.value[k] == kwargs[k]
    ensures r.Some? ==> r.value["agent_scratchpad"] == Scratchpad(steps)
    ensures r.Some? ==> r.value["tools"] == ToolsBlock(tools)
    ensures r.Some? ==> r.value["tool_names"] == ToolNames(tools)
  {
    if "intermediate_steps" !in kwargs then None
    else
      Some((kwargs - {"intermediate_steps"})
        ["agent_scratchpad" := Scratchpad(steps)]
        ["tools" := ToolsBlock(tools)]
        ["tool_names" := ToolNames(tools)])
  }
}
