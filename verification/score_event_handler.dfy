/** The score-changed event handler: only a change for the favourite team has
    an effect, and that effect is the sync delay followed by one blink. */
module EventHandler {
  import opened Common
  import opened Models
  import opened Hue

  /** What `handle` does that takes time or touches the lights, in order. */
  datatype Effect = Sleep(duration: Duration) | Blink

  /** `ScoreChangedEventHandler`. Its configuration is fixed at construction. */
  class ScoreChangedEventHandler {
    const flasher: HueLightController
    const favTeamName: string
    const syncDelay: Duration
    const flashTime: Duration
    var effects: seq<Effect>

    /** `__init__`. */
    constructor (favTeamName: string, lightController: HueLightController, syncDelay: Duration)
      ensures flasher == lightController && this.favTeamName == favTeamName
      ensures this.syncDelay == syncDelay && flashTime == 0 && effects == []
    {
      flasher := lightController;
      this.favTeamName := favTeamName;
      this.syncDelay := syncDelay;
      flashTime := 0;
      effects := [];
    }

    /** `handle`. The name comparison is exact string equality and the points
        are not consulted; `passes` is the number of passes the blink
        completes before its duration has elapsed. */
    method Handle(scoringTeam: Team, passes: nat)
      modifies this`effects, flasher`applied, flasher`shown, flasher.group
      ensures scoringTeam.name != favTeamName ==>
                effects == old(effects) && flasher.applied == old(flasher.applied)
                && flasher.shown == old(flasher.shown) && flasher.group[..] == old(flasher.group[..])
      ensures scoringTeam.name == favTeamName ==>
                effects == old(effects) + [Sleep(syncDelay), Blink]
                && flasher.applied == old(flasher.applied) + Repeat(flasher.colors, passes)
      ensures scoringTeam.name == favTeamName ==>
                |flasher.shown| == |old(flasher.shown)| + |Repeat(flasher.colors, passes)|
                && flasher.shown[..|old(flasher.shown)|] == old(flasher.shown)
      ensures scoringTeam.name == favTeamName ==>
                forall k :: 0 <= k < |Repeat(flasher.colors, passes)| ==>
                  Shows(flasher.shown[|old(flasher.shown)| + k], flasher.group.Length, Repeat(flasher.colors, passes)[k])
      ensures forall i :: 0 <= i < flasher.group.Length ==>
                ColorOf(flasher.group[i]) == ColorOf(old(flasher.group[i]))
    {
      if scoringTeam.name == favTeamName {
        effects := effects + [Sleep(syncDelay)];
        effects := effects + [Blink];
        flasher.BlinkLights(passes);
      }
    }
  }
}
