/** The light controller: the per-team colour lookup over the files of the
    team-colour folder, the constructor that refuses a team without colours,
    and the blink sequence that saves, cycles and restores the group's lights. */
module Hue {
  import opened Common

  /** A colour as hue, saturation and brightness in the Hue API's integer
      ranges, as `color_to_hsb` produces it. */
  datatype Hsb = Hsb(hue: int, saturation: int, brightness: int)

  /** One light of the group, reduced to the attributes `blink_lights` writes. */
  datatype Light = Light(hue: int, saturation: int, brightness: int, alert: string)

  /** The part of a light's state that `blink_lights` saves and restores. */
  function ColorOf(light: Light): Hsb {
    Hsb(light.hue, light.saturation, light.brightness)
  }

  /** One entry of the folder listing with the object its JSON text holds. */
  datatype JsonFile<V> = JsonFile(name: string, data: map<string, V>)

  predicate IsJsonName(name: string) {
    |name| >= 5 && name[|name| - 5..] == ".json"
  }

  /** `find_key_in_folder`: the value under `key` in the first `.json` file,
      in listing order, that has the key; `None` when no such file exists. */
  function FindKeyInFolder<V>(files: seq<JsonFile<V>>, key: string): (r: Option<V>)
    ensures r.None? <==> forall i :: 0 <= i < |files| && IsJsonName(files[i].name) ==> key !in files[i].data
  {
    if |files| == 0 then None
    else if IsJsonName(files[0].name) && key in files[0].data then Some(files[0].data[key])
    else FindKeyInFolder(files[1..], key)
  }

  /** File `i` is the first `.json` file of the listing that has `key`. */
  ghost predicate FirstHolder<V>(files: seq<JsonFile<V>>, key: string, i: int) {
    0 <= i < |files| && IsJsonName(files[i].name) && key in files[i].data
    && forall j :: 0 <= j < i && IsJsonName(files[j].name) ==> key !in files[j].data
  }

  /** A found value comes from the first holder of the key; files that do not
      end in `.json` are never consulted. */
  lemma {:induction false} FindKeyInFolderFirstMatch<V>(files: seq<JsonFile<V>>, key: string, i: int)
    requires FirstHolder(files, key, i)
    ensures FindKeyInFolder(files, key) == Some(files[i].data[key])
  {
    if i > 0 {
      assert !(IsJsonName(files[0].name) && key in files[0].data);
      assert FirstHolder(files[1..], key, i - 1) by {
        assert forall j :: 0 <= j < i - 1 ==> files[1..][j] == files[j + 1];
      }
      FindKeyInFolderFirstMatch(files[1..], key, i - 1);
    }
  }

  /** The sequence of colours applied over `passes` whole passes. */
  function Repeat(colors: seq<Hsb>, passes: nat): (applied: seq<Hsb>) {
    if passes == 0 then [] else Repeat(colors, passes - 1) + colors
  }

  /** The duration is only checked between whole passes: the applied colours
      are a whole number of passes. */
  lemma {:induction false} RepeatLength(colors: seq<Hsb>, passes: nat)
    ensures |Repeat(colors, passes)| == passes * |colors|
  {
    if passes > 0 {
      RepeatLength(colors, passes - 1);
      assert (passes - 1) * |colors| + |colors| == passes * |colors|;
    }
  }

  /** Within every pass the colours are applied in list order. */
  lemma {:induction false} RepeatAt(colors: seq<Hsb>, passes: nat, p: nat, c: nat)
    requires p < passes && c < |colors|
    ensures p * |colors| + c < |Repeat(colors, passes)|
    ensures Repeat(colors, passes)[p * |colors| + c] == colors[c]
  {
    RepeatLength(colors, passes - 1);
    if p < passes - 1 {
      RepeatAt(colors, passes - 1, p, c);
    } else {
      assert p * |colors| == (passes - 1) * |colors|;
    }
  }

  /** `frame` is a group of `size` lights that all show `color` with alert "select". */
  predicate Shows(frame: seq<Light>, size: int, color: Hsb) {
    |frame| == size && forall i :: 0 <= i < size ==> ColorOf(frame[i]) == color && frame[i].alert == "select"
  }

  /** `HueLightController`. Every group-wide colour application (each light
      set to the colour with alert "select") is recorded in `applied`, and the
      state of the group right after it in `shown`. */
  class HueLightController {
    const group: array<Light>
    const blinkDuration: Duration
    const colors: seq<Hsb>
    var applied: seq<Hsb>
    ghost var shown: seq<seq<Light>>

    /** The field set-up of `__init__`, once the colours are known. */
    constructor (group: array<Light>, blinkDuration: Duration, colors: seq<Hsb>)
      ensures this.group == group && this.blinkDuration == blinkDuration
      ensures this.colors == colors && applied == [] && shown == []
    {
      this.group := group;
      this.blinkDuration := blinkDuration;
      this.colors := colors;
      applied := [];
      shown := [];
    }

    /** `blink_lights`, with the wall-clock loop replaced by the number of
        whole passes it completes before the duration has elapsed. */
    method BlinkLights(passes: nat)
      modifies this`applied, this`shown, group
      ensures applied == old(applied) + Repeat(colors, passes)
      ensures |shown| == |old(shown)| + |Repeat(colors, passes)| && shown[..|old(shown)|] == old(shown)
      ensures forall k :: 0 <= k < |Repeat(colors, passes)| ==>
                Shows(shown[|old(shown)| + k], group.Length, Repeat(colors, passes)[k])
      ensures forall i :: 0 <= i < group.Length ==> ColorOf(group[i]) == ColorOf(old(group[i]))
      ensures forall i :: 0 <= i < group.Length ==>
                group[i].alert == if passes > 0 && colors != [] then "select" else old(group[i].alert)
    {
      var saved := seq(group.Length, i requires 0 <= i < group.Length reads group => ColorOf(group[i]));
      ghost var frames: seq<seq<Light>> := [];
      var p := 0;
      while p < passes
        invariant 0 <= p <= passes
        invariant applied == old(applied) + Repeat(colors, p)
        invariant shown == old(shown) + frames && |frames| == |Repeat(colors, p)|
        invariant forall k :: 0 <= k < |frames| ==> Shows(frames[k], group.Length, Repeat(colors, p)[k])
        invariant forall i :: 0 <= i < group.Length ==>
                    group[i].alert == if p > 0 && colors != [] then "select" else old(group[i].alert)
      {
        var c := 0;
        while c < |colors|
          invariant 0 <= c <= |colors|
          invariant applied == old(applied) + Repeat(colors, p) + colors[..c]
          invariant shown == old(shown) + frames && |frames| == |Repeat(colors, p)| + c
          invariant forall k :: 0 <= k < |frames| ==>
                      Shows(frames[k], group.Length, (Repeat(colors, p) + colors[..c])[k])
          invariant forall i :: 0 <= i < group.Length ==>
                      group[i].alert == if (p > 0 || c > 0) && colors != [] then "select" else old(group[i].alert)
        {
          var color := colors[c];
          ShowColor(color);
          applied := applied + [color];
          frames := frames + [group[..]];
          shown := shown + [group[..]];
          assert colors[..c + 1] == colors[..c] + [color];
          c := c + 1;
        }
        assert colors[..|colors|] == colors;
        p := p + 1;
      }
      Restore(saved);
    }

    /** One colour step of `blink_lights`: every light of the group takes the
        colour, with alert "select". */
    method ShowColor(color: Hsb)
      modifies group
      ensures forall i :: 0 <= i < group.Length ==>
                group[i] == Light(color.hue, color.saturation, color.brightness, "select")
    {
      var j := 0;
      while j < group.Length
        invariant 0 <= j <= group.Length
        invariant forall i :: 0 <= i < j ==> group[i] == Light(color.hue, color.saturation, color.brightness, "select")
      {
        group[j] := Light(color.hue, color.saturation, color.brightness, "select");
        j := j + 1;
      }
    }

    /** The restore step of `blink_lights`: light i gets back colour i of
        `saved`; `alert` is left as it is. */
    method Restore(saved: seq<Hsb>)
      requires |saved| == group.Length
      modifies group
      ensures forall i :: 0 <= i < group.Length ==>
                ColorOf(group[i]) == saved[i] && group[i].alert == old(group[i].alert)
    {
      var j := 0;
      while j < group.Length
        invariant 0 <= j <= group.Length
        invariant forall i :: 0 <= i < j ==> ColorOf(group[i]) == saved[i] && group[i].alert == old(group[i].alert)
        invariant forall i :: j <= i < group.Length ==> group[i] == old(group[i])
      {
        group[j] := group[j].(hue := saved[j].hue, saturation := saved[j].saturation, brightness := saved[j].brightness);
        j := j + 1;
      }
    }
  }

  /** `HueLightController(light_group, blink_duration, fav_team_name)` over the
      listing of the team-colour folder. A value of `None` under the team's key
      stands for a JSON `null`, which the source cannot tell from a missing key:
      both raise the RuntimeError. */
  method NewHueLightController(group: array<Light>, blinkDuration: Duration, favTeamName: string,
                               teamColors: seq<JsonFile<Option<seq<Hsb>>>>)
    returns (r: Result<HueLightController>)
    ensures r.Err? <==> FindKeyInFolder(teamColors, favTeamName) in {None, Some(None)}
    ensures r.Err? ==> r.error == NoTeamColors
    ensures r.Ok? ==> fresh(r.value) && FindKeyInFolder(teamColors, favTeamName) == Some(Some(r.value.colors))
    ensures r.Ok? ==> r.value.group == group && r.value.blinkDuration == blinkDuration && r.value.applied == [] && r.value.shown == []
  {
    var found := FindKeyInFolder(teamColors, favTeamName);
    if found.None? || found.value.None? {
      return Err(NoTeamColors);
    }
    var controller := new HueLightController(group, blinkDuration, found.value.value);
    return Ok(controller);
  }
}
