/** The registry of named logging channels and formatters
    (Foundation/src/LoggingRegistry.cpp): two independent maps from names to
    objects, each with lookup, insert-or-replace, erase and clear. The
    registry's mutex and the process-wide default instance are not part of
    this model; the reference-counted pointers become the values themselves. */
module LoggingRegistry {
  import opened Wrappers

  /** NotFoundException(kind, name). */
  datatype NotFound = NotFoundException(kind: string, name: string)

  const CHANNEL_KIND: string := "logging channel"
  const FORMATTER_KIND: string := "logging formatter"

  class Registry<Channel, Formatter> {
    var channels: map<string, Channel>
    var formatters: map<string, Formatter>

    /** A new registry holds nothing. */
    constructor()
      ensures channels == map[] && formatters == map[]
    {
      channels := map[];
      formatters := map[];
    }

    /** channelForName: the channel registered under the name, or
        NotFoundException("logging channel", name). */
    function ChannelForName(name: string): (r: Result<Channel, NotFound>)
      reads this
      ensures r.Ok? <==> name in channels
      ensures r.Ok? ==> r.value == channels[name]
      ensures r.Err? ==> r.error == NotFoundException(CHANNEL_KIND, name)
    {
      if name in channels then Ok(channels[name]) else Err(NotFoundException(CHANNEL_KIND, name))
    }

    /** formatterForName: the same lookup on the formatter map. */
    function FormatterForName(name: string): (r: Result<Formatter, NotFound>)
      reads this
      ensures r.Ok? <==> name in formatters
      ensures r.Ok? ==> r.value == formatters[name]
      ensures r.Err? ==> r.error == NotFoundException(FORMATTER_KIND, name)
    {
      if name in formatters then Ok(formatters[name]) else Err(NotFoundException(FORMATTER_KIND, name))
    }

    /** registerChannel: inserts the channel, replacing any under that name. */
    method RegisterChannel(name: string, channel: Channel)
      modifies this
      ensures channels == old(channels)[name := channel]
      ensures formatters == old(formatters)
      ensures ChannelForName(name) == Ok(channel)
    {
      channels := channels[name := channel];
    }

    /** registerFormatter: inserts the formatter, replacing any under that name. */
    method RegisterFormatter(name: string, formatter: Formatter)
      modifies this
      ensures formatters == old(formatters)[name := formatter]
      ensures channels == old(channels)
      ensures FormatterForName(name) == Ok(formatter)
    {
      formatters := formatters[name := formatter];
    }

    /** unregisterChannel: removes exactly that name, or throws
        NotFoundException and leaves the map as it was. */
    method UnregisterChannel(name: string) returns (r: Result<(), NotFound>)
      modifies this
      ensures r.Ok? <==> name in old(channels)
      ensures r.Err? ==> r.error == NotFoundException(CHANNEL_KIND, name)
      ensures channels == old(channels) - {name}
      ensures formatters == old(formatters)
      ensures ChannelForName(name).Err?
    {
      if name in channels {
        channels := channels - {name};
        r := Ok(());
      } else {
        r := Err(NotFoundException(CHANNEL_KIND, name));
      }
    }

    /** unregisterFormatter: the same on the formatter map. */
    method UnregisterFormatter(name: string) returns (r: Result<(), NotFound>)
      modifies this
      ensures r.Ok? <==> name in old(formatters)
      ensures r.Err? ==> r.error == NotFoundException(FORMATTER_KIND, name)
      ensures formatters == old(formatters) - {name}
      ensures channels == old(channels)
      ensures FormatterForName(name).Err?
    {
      if name in formatters {
        formatters := formatters - {name};
        r := Ok(());
      } else {
        r := Err(NotFoundException(FORMATTER_KIND, name));
      }
    }

    /** clear: empties both maps. */
    method Clear()
      modifies this
      ensures channels == map[] && formatters == map[]
    {
      channels := map[];
      formatters := map[];
    }
  }

  /** Registering twice under one name keeps the second channel; other names
      and the formatters are not affected. */
  method RegisterReplaces<Channel, Formatter>(name: string, other: string, first: Channel, second: Channel, f: Formatter)
    returns (found: Result<Channel, NotFound>, elsewhere: Result<Channel, NotFound>, formatter: Result<Formatter, NotFound>)
    requires name != other
    ensures found == Ok(second)
    ensures elsewhere == Err(NotFoundException(CHANNEL_KIND, other))
    ensures formatter == Err(NotFoundException(FORMATTER_KIND, name))
  {
    var registry := new Registry<Channel, Formatter>();
    registry.RegisterChannel(name, first);
    registry.RegisterChannel(name, second);
    found := registry.ChannelForName(name);
    elsewhere := registry.ChannelForName(other);
    formatter := registry.FormatterForName(name);
  }

  /** A channel is unregistered once; a second attempt throws. The formatter
      of the same name stays registered. */
  method UnregisterOnce<Channel, Formatter>(name: string, c: Channel, f: Formatter)
    returns (first: Result<(), NotFound>, second: Result<(), NotFound>, channel: Result<Channel, NotFound>, formatter: Result<Formatter, NotFound>)
    ensures first.Ok?
    ensures second == Err(NotFoundException(CHANNEL_KIND, name))
    ensures channel.Err?
    ensures formatter == Ok(f)
  {
    var registry := new Registry<Channel, Formatter>();
    registry.RegisterChannel(name, c);
    registry.RegisterFormatter(name, f);
    first := registry.UnregisterChannel(name);
    second := registry.UnregisterChannel(name);
    channel := registry.ChannelForName(name);
    formatter := registry.FormatterForName(name);
  }

  /** After clear nothing is found under any name. */
  method ClearForgets<Channel, Formatter>(name: string, c: Channel, f: Formatter)
    returns (channel: Result<Channel, NotFound>, formatter: Result<Formatter, NotFound>)
    ensures channel == Err(NotFoundException(CHANNEL_KIND, name))
    ensures formatter == Err(NotFoundException(FORMATTER_KIND, name))
  {
    var registry := new Registry<Channel, Formatter>();
    registry.RegisterChannel(name, c);
    registry.RegisterFormatter(name, f);
    registry.Clear();
    channel := registry.ChannelForName(name);
    formatter := registry.FormatterForName(name);
  }
}
