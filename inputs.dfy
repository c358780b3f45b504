/** `process_input_command` of `core/scripts/Latex2word.py`: the `\def`
  * replacements of a text, then every `\input{name}` replaced by the
  * expansion of the file it names (with `.tex` added when missing), or by
  * nothing when there is no such file. The file system is a map from file
  * name to its text; the call depth Python allows is `fuel`. */
module Inputs {
  import opened Strings
  import opened Segmenter
  import BibStore

  /** The file an `\input` names. */
  function TexName(name: string): (f: string)
    ensures EndsWith(f, ".tex")
    ensures EndsWith(name, ".tex") ==> f == name
  {
    if EndsWith(name, ".tex") then name
    else
      assert (name + ".tex")[|name|..] == ".tex";
      name + ".tex"
  }

  /** `\\input\{([^}]+)\}` at the start of a text. */
  function InputAt(s: string): (r: Option<(string, nat)>)
    ensures r.Some? ==> StartsWith(s, InputLead) && r.value.0 != [] && r.value.1 <= |s|
  {
    CommandAt(InputLead, s)
  }

  const InputLead: string := "\\input{"

  /** The `re.sub` over the text: each input replaced by its file's
    * expansion. `None` when the nesting of inputs is deeper than `fuel`
    * (where Python gives up with a recursion error). */
  function Expand(files: map<string, string>, s: string, fuel: nat): (r: Option<string>)
    decreases fuel, 1, |s|
  {
    if s == [] then Some([])
    else
      match InputAt(s)
      case Some((name, n)) =>
        var inner := if TexName(name) in files then ProcessInput(files, files[TexName(name)], fuel) else Some([]);
        var rest := Expand(files, s[n..], fuel);
        if inner.Some? && rest.Some? then Some(inner.value + rest.value) else None
      case None =>
        var rest := Expand(files, s[1..], fuel);
        if rest.Some? then Some([s[0]] + rest.value) else None
  }

  /** `process_input_command` on one text, one call deeper. */
  function ProcessInput(files: map<string, string>, content: string, fuel: nat): Option<string>
    decreases fuel, 0
  {
    if fuel == 0 then None else Expand(files, ProcessDefCommands(content), fuel - 1)
  }

  // ---------------------------------------------------------------------------
  // Properties

  /** A text with no `\input{` is left as it is. */
  lemma {:induction false} NoInputKept(files: map<string, string>, s: string, fuel: nat)
    requires !Contains(s, InputLead)
    ensures Expand(files, s, fuel) == Some(s)
    decreases |s|
  {
    if s != [] {
      if InputAt(s).Some? {
        assert OccursAt(s, InputLead, 0);
        assert false;
      }
      NotContainedTail(s, InputLead);
      NoInputKept(files, s[1..], fuel);
      assert [s[0]] + s[1..] == s;
    }
  }

  lemma NotContainedTail(s: string, p: string)
    requires s != [] && !Contains(s, p)
    ensures !Contains(s[1..], p)
  {
    if Contains(s[1..], p) {
      var i :| 0 <= i <= |s[1..]| - |p| && OccursAt(s[1..], p, i);
      assert s[i + 1..i + 1 + |p|] == s[1..][i..i + |p|];
      assert OccursAt(s, p, i + 1);
    }
  }

  /** An input of a file that does not exist is dropped. */
  lemma MissingFileDropped(files: map<string, string>, name: string, rest: string, fuel: nat)
    requires name != [] && '}' !in name && TexName(name) !in files
    ensures Expand(files, InputLead + name + "}" + rest, fuel) == Expand(files, rest, fuel)
  {
    var s := InputLead + name + "}" + rest;
    InputFound(name, rest);
    assert s[|InputLead| + |name| + 1..] == rest;
    if Expand(files, rest, fuel).Some? {
      assert [] + Expand(files, rest, fuel).value == Expand(files, rest, fuel).value;
    }
  }

  /** An input of a file that exists gives the file's own expansion, its
    * definitions replaced first. */
  lemma FileExpanded(files: map<string, string>, name: string, rest: string, fuel: nat)
    requires name != [] && '}' !in name && TexName(name) in files && fuel > 0
    requires Expand(files, rest, fuel).Some?
    ensures Expand(files, InputLead + name + "}" + rest, fuel)
         == match Expand(files, ProcessDefCommands(files[TexName(name)]), fuel - 1)
            case Some(t) => Some(t + Expand(files, rest, fuel).value)
            case None => None
  {
    var s := InputLead + name + "}" + rest;
    InputFound(name, rest);
    assert s[|InputLead| + |name| + 1..] == rest;
  }

  lemma InputFound(name: string, rest: string)
    requires name != [] && '}' !in name
    ensures InputAt(InputLead + name + "}" + rest) == Some((name, |InputLead| + |name| + 1))
  {
    var s := InputLead + name + "}" + rest;
    assert s[..|InputLead|] == InputLead;
    var t := s[|InputLead|..];
    assert t == name + "}" + rest;
    TakeName(name, rest);
  }

  /** The group of `[^}]+` is the whole name before the closing brace. */
  lemma {:induction false} TakeName(name: string, rest: string)
    requires '}' !in name
    ensures TakeWhile(name + "}" + rest, BibStore.NotCloseBrace) == name
    decreases |name|
  {
    var t := name + "}" + rest;
    if name == [] {
      assert t[0] == '}';
    } else {
      assert t[1..] == name[1..] + "}" + rest;
      TakeName(name[1..], rest);
      assert [name[0]] + name[1..] == name;
    }
  }
}
