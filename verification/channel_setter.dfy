/** `ChannelSetterNl80211` (ChannelSetterNl80211.cpp): convert an IEEE 802.11
    channel number to a centre frequency in MHz and tune the monitor
    interface to it with one nl80211 SET_WIPHY request.

    The channel plans are those of IEEE Std 802.11-2016: 2407 + 5n MHz for
    the 2.4 GHz DSSS channels (section 15.4.4.3), with channel 14 at
    2484 MHz, and 5000 + 5n MHz for the OFDM channels (section 17.3.8.4.2).
    The source computes in `uint32_t`, so the arithmetic wraps modulo 2^32. */
module ChannelSetter {
  import opened Common

  const TwoPow32: int := 0x1_0000_0000

  /** The largest channel whose frequency does not wrap: (c + 1000) * 5 < 2^32. */
  const NoWrapLimit: int := 858992459

  /** `ChannelToFrequency(channel)` in `uint32_t` arithmetic. */
  function ChannelToFrequency(channel: uint32): (f: uint32)
    ensures channel < 14 ==> f == 2407 + 5 * channel
    ensures channel == 14 ==> f == 2484
    ensures 14 < channel <= NoWrapLimit ==> f == 5000 + 5 * channel
    ensures channel > NoWrapLimit ==> f == (5000 + 5 * channel) % TwoPow32
  {
    if channel < 14 then (2407 + channel * 5) % TwoPow32
    else if channel == 14 then 2484
    else (((channel + 1000) % TwoPow32) * 5) % TwoPow32
  }

  /** Channels 1 to 13 lie 5 MHz apart from 2412 to 2472 MHz. */
  lemma DsssBand(channel: uint32)
    requires 1 <= channel <= 13
    ensures 2412 <= ChannelToFrequency(channel) <= 2472
    ensures ChannelToFrequency(channel) - ChannelToFrequency(channel - 1) == 5
  {
  }

  /** The reverse mapping: the channel a frequency belongs to, if any. */
  function FrequencyToChannel(f: uint32): (c: Option<uint32>)
    ensures c.Some? ==> ChannelToFrequency(c.value) == f
  {
    if f == 2484 then Some(14)
    else if 2407 <= f <= 2472 && (f - 2407) % 5 == 0 then Some((f - 2407) / 5)
    else if 5075 <= f && f % 5 == 0 then Some(f / 5 - 1000)
    else None
  }

  /** Every channel that does not wrap is recovered from its frequency. */
  lemma FrequencyRoundTrip(channel: uint32)
    requires channel <= NoWrapLimit
    ensures FrequencyToChannel(ChannelToFrequency(channel)) == Some(channel)
  {
  }

  /** Up to the wrap-around, higher channels have strictly higher
      frequencies, across the band boundaries too. */
  lemma ChannelToFrequencyIncreasing(c1: uint32, c2: uint32)
    requires c1 < c2 <= NoWrapLimit
    ensures ChannelToFrequency(c1) < ChannelToFrequency(c2)
  {
  }

  /** Past the limit the result wraps: the next channel maps to 4 MHz. */
  lemma ChannelToFrequencyWraps()
    ensures ChannelToFrequency(NoWrapLimit + 1) == 4
    ensures ChannelToFrequency(NoWrapLimit + 1) < ChannelToFrequency(15)
  {
  }

  // ---------------------------------------------------------------------
  // SetChannel

  /** Command, attribute and channel-type codes of the Linux nl80211 interface. */
  const NL80211_CMD_SET_WIPHY: int := 2
  const NL80211_ATTR_IFINDEX: int := 3
  const NL80211_ATTR_WIPHY_FREQ: int := 38
  const NL80211_ATTR_WIPHY_CHANNEL_TYPE: int := 39
  const NL80211_CHAN_NO_HT: uint32 := 0

  /** One step of building and sending a netlink message. */
  datatype NlCall =
    | SetupMessage(command: int)
    | AddU32(attribute: int, value: uint32)
    | SendMessage

  datatype NlEvent = NlEvent(call: NlCall, ok: bool)

  /** The netlink layer's answer to each step, given the steps before it. */
  type NlOracle = (seq<NlEvent>, NlCall) -> bool

  datatype ChannelRun = ChannelRun(events: seq<NlEvent>, ok: bool)

  /** The message SetChannel builds for `channel` on interface `ifIndex`. */
  function ChannelPlan(channel: uint32, ifIndex: uint32): seq<NlCall> {
    [ SetupMessage(NL80211_CMD_SET_WIPHY),
      AddU32(NL80211_ATTR_IFINDEX, ifIndex),
      AddU32(NL80211_ATTR_WIPHY_FREQ, ChannelToFrequency(channel)),
      AddU32(NL80211_ATTR_WIPHY_CHANNEL_TYPE, NL80211_CHAN_NO_HT),
      SendMessage ]
  }

  function Try(nl: NlOracle, events: seq<NlEvent>, c: NlCall): seq<NlEvent> {
    events + [NlEvent(c, nl(events, c))]
  }

  /** `SetChannel(channel)`: set the message up, add the three attributes
      (the `||` chain stops at the first failing add), then send it. */
  function SetChannel(nl: NlOracle, channel: uint32, ifIndex: uint32): (r: ChannelRun)
    ensures 1 <= |r.events| <= 5
    ensures r.ok <==> Last(r.events).ok && Last(r.events).call == SendMessage
  {
    var freq := ChannelToFrequency(channel);
    var e1 := Try(nl, [], SetupMessage(NL80211_CMD_SET_WIPHY));
    if !Last(e1).ok then ChannelRun(e1, false)
    else
      var e2 := Try(nl, e1, AddU32(NL80211_ATTR_IFINDEX, ifIndex));
      if !Last(e2).ok then ChannelRun(e2, false)
      else
        var e3 := Try(nl, e2, AddU32(NL80211_ATTR_WIPHY_FREQ, freq));
        if !Last(e3).ok then ChannelRun(e3, false)
        else
          var e4 := Try(nl, e3, AddU32(NL80211_ATTR_WIPHY_CHANNEL_TYPE, NL80211_CHAN_NO_HT));
          if !Last(e4).ok then ChannelRun(e4, false)
          else
            var e5 := Try(nl, e4, SendMessage);
            ChannelRun(e5, Last(e5).ok)
  }

  /** Reference definition: issue the steps of `plan` in order, stopping at
      the first one the netlink layer refuses; succeed when the last is accepted. */
  function RunPlan(nl: NlOracle, events: seq<NlEvent>, plan: seq<NlCall>): (r: ChannelRun)
    requires |plan| > 0
    ensures |events| < |r.events| <= |events| + |plan| && r.events[..|events|] == events
    ensures forall i | |events| <= i < |r.events| :: r.events[i].call == plan[i - |events|]
    ensures forall i | |events| <= i < |r.events| - 1 :: r.events[i].ok
    ensures r.ok <==> |r.events| == |events| + |plan| && Last(r.events).ok
    ensures !Last(r.events).ok ==> !r.ok
    decreases |plan|
  {
    var e := Try(nl, events, plan[0]);
    if !Last(e).ok || |plan| == 1 then ChannelRun(e, Last(e).ok)
    else
      var rest := RunPlan(nl, e, plan[1..]);
      assert rest.events[..|events|] == rest.events[..|e|][..|events|];
      assert rest.events[|events|] == rest.events[..|e|][|events|];
      rest
  }

  /** SetChannel runs the five-step plan: it sends the frequency of the
      channel with channel type NO_HT, stops without sending at the first
      refused setup or attribute, and reports the send's answer. */
  lemma {:induction false} SetChannelFollowsPlan(nl: NlOracle, channel: uint32, ifIndex: uint32)
    ensures SetChannel(nl, channel, ifIndex) == RunPlan(nl, [], ChannelPlan(channel, ifIndex))
  {
    var plan := ChannelPlan(channel, ifIndex);
    var e1 := Try(nl, [], plan[0]);
    var e2 := Try(nl, e1, plan[1]);
    var e3 := Try(nl, e2, plan[2]);
    var e4 := Try(nl, e3, plan[3]);
    var e5 := Try(nl, e4, plan[4]);
    assert plan[4..] == [SendMessage];
    assert RunPlan(nl, e4, plan[4..]) == ChannelRun(e5, Last(e5).ok);
    assert plan[3..][1..] == plan[4..];
    assert Last(e4).ok ==> RunPlan(nl, e3, plan[3..]) == ChannelRun(e5, Last(e5).ok);
    assert plan[2..][1..] == plan[3..];
    assert Last(e3).ok && Last(e4).ok ==> RunPlan(nl, e2, plan[2..]) == ChannelRun(e5, Last(e5).ok);
    assert plan[1..][1..] == plan[2..];
    assert Last(e2).ok && Last(e3).ok && Last(e4).ok ==>
      RunPlan(nl, e1, plan[1..]) == ChannelRun(e5, Last(e5).ok);
  }

  /** Step by step, SetChannel issues the plan in order, and every step
      but the last it issued was accepted. */
  lemma {:induction false} SetChannelSteps(nl: NlOracle, channel: uint32, ifIndex: uint32)
    ensures var r := SetChannel(nl, channel, ifIndex);
      && (forall i | 0 <= i < |r.events| :: r.events[i].call == ChannelPlan(channel, ifIndex)[i])
      && (forall i | 0 <= i < |r.events| - 1 :: r.events[i].ok)
  {
    var plan := ChannelPlan(channel, ifIndex);
    SetChannelFollowsPlan(nl, channel, ifIndex);
    var r := RunPlan(nl, [], plan);
    forall i | 0 <= i < |r.events|
      ensures r.events[i].call == plan[i]
    {
      assert r.events[i].call == plan[i - 0];
    }
  }

  /** The consequences for callers: the request carries the converted
      frequency and NO_HT, and nothing is sent unless every earlier step
      was accepted. */
  lemma {:induction false} SetChannelSendsOnlyComplete(nl: NlOracle, channel: uint32, ifIndex: uint32)
    ensures var r := SetChannel(nl, channel, ifIndex);
      && (Last(r.events).call == SendMessage ==>
            |r.events| == 5 && forall i | 0 <= i < 4 :: r.events[i].ok)
      && (r.ok ==> |r.events| == 5)
  {
    var plan := ChannelPlan(channel, ifIndex);
    var r := SetChannel(nl, channel, ifIndex);
    SetChannelSteps(nl, channel, ifIndex);
    var n := |r.events|;
    assert r.events[n - 1].call == plan[n - 1];
  }
}
