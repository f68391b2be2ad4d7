/**
  The single-channel / multi-channel machine of the Wi-Fi Display sink commands: which
  operating channel and which channel list the peer-to-peer code sees after any sequence of
  MIRACAST and p2p_use_mcc commands.
 */
module WifiChannels {
  import opened Numerals

  datatype Pair = Pair(regClass: u8, channel: u8)

  /** One operating class with room for several channels, of which the first `used` count. */
  datatype RegClass = RegClass(regClass: u8, used: nat, channel: seq<u8>)

  /** A fixed array of operating classes of which the first `used` count. */
  datatype ChannelList = ChannelList(used: nat, classes: seq<RegClass>)

  predicate WellFormed(l: ChannelList) {
    && 1 <= |l.classes| && l.used <= |l.classes|
    && forall c <- l.classes :: 1 <= |c.channel| && c.used <= |c.channel|
  }

  /** The part of a list its readers look at. */
  function Visible(l: ChannelList): seq<(u8, seq<u8>)>
    requires WellFormed(l)
  {
    seq(l.used, i requires 0 <= i < l.used =>
      assert l.classes[i] in l.classes;
      (l.classes[i].regClass, l.classes[i].channel[..l.classes[i].used]))
  }

  // ----- the frequency table -----

  /** `p2p5g` is the build option for the extra 5 GHz classes, whose branches do not check the
      channel spacing. */
  function FreqToChannel(freq: u32, p2p5g: bool): Option<Pair> {
    if 2412 <= freq <= 2472 then
      if (freq - 2407) % 5 != 0 then None else Some(Pair(81, (freq - 2407) / 5))
    else if freq == 2484 then Some(Pair(82, 14))
    else if 5180 <= freq <= 5240 then
      if (freq - 5000) % 5 != 0 then None else Some(Pair(115, (freq - 5000) / 5))
    else if p2p5g && 5260 <= freq <= 5320 then Some(Pair(118, (freq - 5000) / 5))
    else if p2p5g && 5500 <= freq <= 5700 then Some(Pair(121, (freq - 5000) / 5))
    else if 5745 <= freq <= 5805 then
      if (freq - 5000) % 5 != 0 then None else Some(Pair(124, (freq - 5000) / 5))
    else if p2p5g && 5825 <= freq <= 5845 then Some(Pair(125, (freq - 5000) / 5))
    else None
  }

  /** Centre frequency of a channel: class 81 counts from 2407 MHz, class 82 is channel 14 alone,
      the 5 GHz classes count from 5000 MHz. */
  function ChannelToFreq(p: Pair): nat {
    if p.regClass == 81 then 2407 + 5 * p.channel
    else if p.regClass == 82 then 2484
    else 5000 + 5 * p.channel
  }

  /** The pair names the frequency it was made from, exactly when that frequency lies on the
      5 MHz raster; without the extra classes it always does. */
  lemma PairNamesFrequency(freq: u32, p2p5g: bool)
    requires FreqToChannel(freq, p2p5g).Some?
    ensures ChannelToFreq(FreqToChannel(freq, p2p5g).value) == freq <==> freq < 5000 || freq % 5 == 0
    ensures !p2p5g ==> ChannelToFreq(FreqToChannel(freq, p2p5g).value) == freq
  {}

  /** For instance 5261 MHz, which the extra classes call channel 52, that is 5260 MHz. */
  lemma OffRaster()
    ensures FreqToChannel(5261, true) == Some(Pair(118, 52)) && ChannelToFreq(Pair(118, 52)) == 5260
  {}

  /** First and last channel of each operating class the table knows; None for other classes
      and for the classes that need the build option. */
  function ClassChannels(regClass: u8, p2p5g: bool): Option<(u8, u8)> {
    if regClass == 81 then Some((1, 13))
    else if regClass == 82 then Some((14, 14))
    else if regClass == 115 then Some((36, 48))
    else if regClass == 124 then Some((149, 161))
    else if p2p5g && regClass == 118 then Some((52, 64))
    else if p2p5g && regClass == 121 then Some((100, 140))
    else if p2p5g && regClass == 125 then Some((165, 169))
    else None
  }

  predicate InClass(p: Pair, p2p5g: bool) {
    var range := ClassChannels(p.regClass, p2p5g);
    range.Some? && range.value.0 <= p.channel <= range.value.1
  }

  /** The table and the classes are inverse to each other: it answers only channels of its
      classes, and each channel of each class is what its own frequency maps to. */
  lemma TableIsInverse(freq: u32, p: Pair, p2p5g: bool)
    ensures FreqToChannel(freq, p2p5g) == Some(p) ==> InClass(p, p2p5g)
    ensures InClass(p, p2p5g) <==> FreqToChannel(ChannelToFreq(p), p2p5g) == Some(p)
  {
    if InClass(p, p2p5g) && p.regClass > 82 {
      assert (ChannelToFreq(p) - 5000) / 5 == p.channel && (ChannelToFreq(p) - 5000) % 5 == 0;
    }
  }

  // ----- the machine -----

  /** Settings the commands read and never change: the configured pair (0 for "not set") and
      the configured channel list. */
  datatype Config = Config(oper: Pair, channels: ChannelList, p2p5g: bool)

  /** What the outside world supplies to one command: the station's frequency as the driver
      reports it, a random word, and the contents of the uninitialised output variables. */
  datatype World = World(shared: int, random: u32, junk: Pair)

  datatype Command =
    | Miracast(value: int, freq: Option<int>)
    | UseMcc(value: int)

  /** What a command asks for. */
  datatype Action = Scc(freq: u32) | Mcc | Nothing

  function AsU32(n: int): u32 {
    n % 0x1_0000_0000
  }

  function AsU8(n: int): u8 {
    n % 0x100
  }

  function Follow(freq: u32): Action {
    if freq != 0 then Scc(freq) else Mcc
  }

  function Meaning(c: Command, shared: int): Action {
    match c
    case Miracast(value, freq) =>
      if AsU8(value) <= 1 then Follow(AsU32(shared))
      else if AsU8(value) == 2 then
        if freq.Some? then Follow(AsU32(freq.value)) else Follow(AsU32(shared))
      else Nothing
    case UseMcc(value) =>
      if AsU8(value) != 0 then Mcc else if shared > 0 then Follow(AsU32(shared)) else Mcc
  }

  /** Operating pair and channel list in use. */
  datatype P2p = P2p(op: Pair, channels: ChannelList, cfgOpChannel: bool)

  function OnlyChannel(l: ChannelList, p: Pair): (r: ChannelList)
    requires WellFormed(l)
    ensures WellFormed(r)
  {
    var c := l.classes[0];
    assert c in l.classes;
    ChannelList(1, l.classes[0 := RegClass(p.regClass, 1, c.channel[0 := p.channel])])
  }

  function Configured(cfg: Config): bool {
    cfg.oper.regClass != 0 && cfg.oper.channel != 0
  }

  function Apply(x: P2p, a: Action, cfg: Config, w: World): (y: P2p)
    requires WellFormed(x.channels) && WellFormed(cfg.channels)
    ensures WellFormed(y.channels)
  {
    match a
    case Nothing => x
    case Scc(freq) =>
      var p := if FreqToChannel(freq, cfg.p2p5g).Some? then FreqToChannel(freq, cfg.p2p5g).value else w.junk;
      x.(op := p, channels := OnlyChannel(x.channels, p))
    case Mcc =>
      P2p(if Configured(cfg) then cfg.oper else Pair(81, 1 + (w.random % 3) * 5), cfg.channels, Configured(cfg))
  }

  class P2pData {
    var opRegClass: u8
    var opChannel: u8
    var channels: ChannelList
    var cfgOpChannel: bool
    var useMcc: u8
    const cfg: Config

    constructor (start: P2p, cfg: Config)
      requires WellFormed(start.channels) && WellFormed(cfg.channels)
      ensures Valid() && Value() == start && this.cfg == cfg && useMcc == 0
    {
      opRegClass, opChannel := start.op.regClass, start.op.channel;
      channels, cfgOpChannel, useMcc := start.channels, start.cfgOpChannel, 0;
      this.cfg := cfg;
    }

    ghost predicate Valid() reads this { WellFormed(channels) && WellFormed(cfg.channels) }

    ghost function Value(): P2p reads this { P2p(Pair(opRegClass, opChannel), channels, cfgOpChannel) }

    method ConfigScc(scc: bool, operFreq: u32, w: World)
      requires Valid()
      modifies this`opRegClass, this`opChannel, this`channels, this`cfgOpChannel
      ensures Valid() && Value() == Apply(old(Value()), if scc then Follow(operFreq) else Mcc, cfg, w)
    {
      if scc && operFreq != 0 {
        var regClass, channel := w.junk.regClass, w.junk.channel;
        var p := FreqToChannel(operFreq, cfg.p2p5g);
        if p.Some? {
          regClass, channel := p.value.regClass, p.value.channel;
        }
        opChannel := channel;
        opRegClass := regClass;
        var first := channels.classes[0];
        assert first in channels.classes;
        first := first.(used := 1);
        first := first.(regClass := regClass);
        first := first.(channel := first.channel[0 := channel]);
        channels := ChannelList(1, channels.classes[0 := first]);
        return;
      }
      if cfg.oper.regClass != 0 && cfg.oper.channel != 0 {
        opRegClass := cfg.oper.regClass;
        opChannel := cfg.oper.channel;
        cfgOpChannel := true;
      } else {
        opRegClass := 81;
        opChannel := 1 + (w.random % 3) * 5;
        cfgOpChannel := false;
      }
      channels := cfg.channels;
    }

    method DriverCommand(c: Command, w: World)
      requires Valid()
      modifies this
      ensures Valid() && Value() == Apply(old(Value()), Meaning(c, w.shared), cfg, w)
      ensures useMcc == if c.UseMcc? then AsU8(c.value) else old(useMcc)
    {
      match c {
        case Miracast(value, freqArg) =>
          var miracast := AsU8(value);
          if miracast == 0 || miracast == 1 {
            var freq := AsU32(w.shared);
            if freq > 0 {
              ConfigScc(true, freq, w);
            } else {
              ConfigScc(false, 0, w);
            }
          } else if miracast == 2 {
            if freqArg.Some? {
              ConfigScc(true, AsU32(freqArg.value), w);
            } else {
              var freq := AsU32(w.shared);
              if freq > 0 {
                ConfigScc(true, freq, w);
              } else {
                ConfigScc(false, 0, w);
              }
            }
          }
        case UseMcc(value) =>
          useMcc := AsU8(value);
          if useMcc != 0 {
            ConfigScc(false, 0, w);
          } else if w.shared > 0 {
            ConfigScc(true, AsU32(w.shared), w);
          } else {
            ConfigScc(false, 0, w);
          }
      }
    }
  }

  // ----- runs -----

  function Run(x: P2p, steps: seq<(Command, World)>, cfg: Config): (y: P2p)
    requires WellFormed(x.channels) && WellFormed(cfg.channels)
    ensures WellFormed(y.channels)
    decreases steps
  {
    if steps == [] then x
    else Run(Apply(x, Meaning(steps[0].0, steps[0].1.shared), cfg, steps[0].1), steps[1..], cfg)
  }

  /** The last action of a run that is not "nothing". */
  function LastAction(steps: seq<(Command, World)>): Action {
    if steps == [] then Nothing
    else
      var (c, w) := steps[|steps| - 1];
      if Meaning(c, w.shared) != Nothing then Meaning(c, w.shared) else LastAction(steps[..|steps| - 1])
  }

  predicate Accepted(a: Action, p2p5g: bool) {
    a.Scc? ==> FreqToChannel(a.freq, p2p5g).Some?
  }

  /** Single channel: one class with one channel, the operating pair. */
  predicate SingleChannel(x: P2p, freq: u32, cfg: Config)
    requires WellFormed(x.channels)
  {
    && FreqToChannel(freq, cfg.p2p5g) == Some(x.op)
    && Visible(x.channels) == [(x.op.regClass, [x.op.channel])]
  }

  /** Multi channel: the configured list, and the configured pair or a social channel. */
  predicate MultiChannel(x: P2p, cfg: Config)
    requires WellFormed(x.channels) && WellFormed(cfg.channels)
  {
    && Visible(x.channels) == Visible(cfg.channels)
    && x.cfgOpChannel == Configured(cfg)
    && (if Configured(cfg) then x.op == cfg.oper else x.op.regClass == 81 && x.op.channel in [1, 6, 11])
  }

  predicate Reached(x: P2p, a: Action, cfg: Config)
    requires WellFormed(x.channels) && WellFormed(cfg.channels)
  {
    match a
    case Scc(freq) => SingleChannel(x, freq, cfg)
    case Mcc => MultiChannel(x, cfg)
    case Nothing => true
  }

  lemma OneVisible(x: P2p, a: Action, cfg: Config, w: World)
    requires WellFormed(x.channels) && WellFormed(cfg.channels) && a.Scc?
    ensures var y := Apply(x, a, cfg, w); Visible(y.channels) == [(y.op.regClass, [y.op.channel])]
  {
    hide FreqToChannel;
    var y := Apply(x, a, cfg, w);
    var c := y.channels.classes[0];
    assert x.channels.classes[0] in x.channels.classes;
    assert c.regClass == y.op.regClass && c.used == 1 && c.channel[0] == y.op.channel;
    assert c.channel[..1] == [y.op.channel];
    assert Visible(y.channels) == [(c.regClass, c.channel[..1])];
  }

  lemma ApplyReaches(x: P2p, a: Action, cfg: Config, w: World)
    requires WellFormed(x.channels) && WellFormed(cfg.channels) && Accepted(a, cfg.p2p5g)
    ensures Reached(Apply(x, a, cfg, w), a, cfg)
  {
    if a.Scc? {
      OneVisible(x, a, cfg, w);
    }
  }

  lemma {:induction false} RunSplit(x: P2p, steps: seq<(Command, World)>, cfg: Config)
    requires WellFormed(x.channels) && WellFormed(cfg.channels) && steps != []
    ensures var n := |steps| - 1;
            var (c, w) := steps[n];
            Run(x, steps, cfg) == Apply(Run(x, steps[..n], cfg), Meaning(c, w.shared), cfg, w)
    decreases steps
  {
    var n := |steps| - 1;
    var next := Apply(x, Meaning(steps[0].0, steps[0].1.shared), cfg, steps[0].1);
    if n == 0 {
      assert steps[1..] == [] && steps[..n] == [];
    } else {
      RunSplit(next, steps[1..], cfg);
      assert steps[1..][..n - 1] == steps[..n][1..];
    }
  }

  /** After any run the last effective command alone decides the mode, from any start and through
      any earlier commands, whatever frequencies those named: a single-channel command with an
      accepted frequency shows exactly that channel, a multi-channel one restores the
      configured list. */
  lemma {:induction false} LastCommandDecides(x: P2p, steps: seq<(Command, World)>, cfg: Config)
    requires WellFormed(x.channels) && WellFormed(cfg.channels) && Accepted(LastAction(steps), cfg.p2p5g)
    ensures Reached(Run(x, steps, cfg), LastAction(steps), cfg)
    ensures LastAction(steps) == Nothing ==> Run(x, steps, cfg) == x
    decreases |steps|
  {
    if steps != [] {
      var n := |steps| - 1;
      var (c, w) := steps[n];
      RunSplit(x, steps, cfg);
      if Meaning(c, w.shared) != Nothing {
        ApplyReaches(Run(x, steps[..n], cfg), Meaning(c, w.shared), cfg, w);
      } else {
        LastCommandDecides(x, steps[..n], cfg);
      }
    }
  }

  /** The whole-run form: with only accepted frequencies, every state after an effective command
      is single-channel on a frequency it maps back to, or multi-channel. */
  lemma EveryRun(x: P2p, steps: seq<(Command, World)>, cfg: Config)
    requires WellFormed(x.channels) && WellFormed(cfg.channels) && !cfg.p2p5g
    requires Accepted(LastAction(steps), false) && LastAction(steps) != Nothing
    ensures var y := Run(x, steps, cfg);
            if LastAction(steps).Scc?
            then ChannelToFreq(y.op) == LastAction(steps).freq && Visible(y.channels) == [(y.op.regClass, [y.op.channel])]
            else MultiChannel(y, cfg)
  {
    LastCommandDecides(x, steps, cfg);
    if LastAction(steps).Scc? {
      PairNamesFrequency(LastAction(steps).freq, false);
    }
  }

  /** The state follows this frequency: the operating pair and the only visible channel are those the
      table gives for it, or what the output variables held when it gives none, and the "configured"
      mark stays. */
  predicate Follows(x: P2p, y: P2p, freq: u32, cfg: Config, w: World)
    requires WellFormed(y.channels)
  {
    && (match FreqToChannel(freq, cfg.p2p5g)
        case Some(pair) => y.op == pair
        case None => y.op == w.junk)
    && Visible(y.channels) == [(y.op.regClass, [y.op.channel])]
    && y.cfgOpChannel == x.cfgOpChannel
  }

  /** The state is back to multi-channel: the configured list, and the configured pair if both its
      halves are set, otherwise the social channel the random word picks. */
  predicate Restored(y: P2p, cfg: Config, w: World)
    requires WellFormed(y.channels) && WellFormed(cfg.channels)
  {
    var isSet := cfg.oper.regClass != 0 && cfg.oper.channel != 0;
    && Visible(y.channels) == Visible(cfg.channels)
    && y.cfgOpChannel == isSet
    && y.op == if isSet then cfg.oper else Pair(81, [1, 6, 11][w.random % 3])
  }

  lemma ActionExactly(x: P2p, a: Action, cfg: Config, w: World)
    requires WellFormed(x.channels) && WellFormed(cfg.channels)
    ensures var y := Apply(x, a, cfg, w);
            match a
            case Nothing => y == x
            case Mcc => Restored(y, cfg, w)
            case Scc(freq) => Follows(x, y, freq, cfg, w)
  {
    hide FreqToChannel;
    if a.Scc? {
      OneVisible(x, a, cfg, w);
    }
  }

  /** What one command does to the state, by its value and the frequency it names. `MIRACAST 2` with a
      frequency follows that one, whatever the station uses; without one, and for the values 0 and
      1, it follows the station; frequency 0 means multi-channel; other values change nothing.
      `p2p_use_mcc` follows the station only when its value is 0 and the station's frequency is
      positive. */
  lemma CommandExactly(x: P2p, c: Command, cfg: Config, w: World)
    requires WellFormed(x.channels) && WellFormed(cfg.channels)
    ensures var y := Apply(x, Meaning(c, w.shared), cfg, w);
            match c
            case Miracast(value, freq) =>
              var named := (if value % 256 == 2 && freq.Some? then freq.value else w.shared) % 0x1_0000_0000;
              if value % 256 > 2 then y == x
              else if named == 0 then Restored(y, cfg, w)
              else Follows(x, y, named, cfg, w)
            case UseMcc(value) =>
              if value % 256 != 0 || w.shared <= 0 || w.shared % 0x1_0000_0000 == 0 then Restored(y, cfg, w)
              else Follows(x, y, w.shared % 0x1_0000_0000, cfg, w)
  {
    hide Restored, Follows, Apply;
    ActionExactly(x, Meaning(c, w.shared), cfg, w);
  }

  /** A station frequency the driver cannot report comes as -1. MIRACAST reads it as unsigned,
      takes it for a frequency and configures whatever the output variables held; p2p_use_mcc
      reads it as signed and goes to multi-channel. */
  lemma UnknownFrequency(x: P2p, cfg: Config, random: u32, junk: Pair)
    requires WellFormed(x.channels) && WellFormed(cfg.channels)
    ensures var w := World(-1, random, junk);
            && Apply(x, Meaning(Miracast(1, None), -1), cfg, w).op == junk
            && Meaning(UseMcc(0), -1) == Mcc
  {}

  /** The whole state a single-channel command leaves is determined by its frequency exactly when the
      table accepts it. */
  lemma SccDetermined(x: P2p, freq: u32, cfg: Config)
    requires WellFormed(x.channels) && WellFormed(cfg.channels)
    ensures (forall v, w :: Apply(x, Scc(freq), cfg, v) == Apply(x, Scc(freq), cfg, w)) <==> FreqToChannel(freq, cfg.p2p5g).Some?
  {
    if FreqToChannel(freq, cfg.p2p5g).None? {
      var v, w := World(0, 0, Pair(1, 1)), World(0, 0, Pair(2, 2));
      assert Apply(x, Scc(freq), cfg, v).op != Apply(x, Scc(freq), cfg, w).op;
    }
  }
}
