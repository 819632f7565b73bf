/** Writer and PrettyWriter as they run: an output that grows, a stack of levels and a root
    flag. */
module JsonWriter {
  import opened Bytes
  import opened JsonEvents
  import opened JsonString
  import opened JsonRecursive
  import opened JsonPrinter

  /** The writer's escape table: the letter after the backslash, or NUL for a plain byte. */
  function EscapeLetter(b: byte): byte {
    if b == QUOTE || b == BACKSLASH then b
    else if b == 8 then 98
    else if b == TAB then LOWER_T
    else if b == LF then LOWER_N
    else if b == 12 then LOWER_F
    else if b == CR then 114
    else if b < 0x20 then LOWER_U
    else NUL
  }

  class Writer {
    var out: bytes
    var levels: seq<Level>
    var hasRoot: bool

    ghost function State(): Shape
      reads this
    {
      Shape(levels, hasRoot)
    }

    constructor ()
      ensures out == [] && State() == BLANK
    {
      out, levels, hasRoot := [], [], false;
    }

    /** A new stream and default settings. */
    method Reset()
      modifies this
      ensures out == [] && State() == BLANK
    {
      out, levels, hasRoot := [], [], false;
    }

    method IsComplete() returns (r: bool)
      ensures r == Complete(State())
    {
      r := hasRoot && |levels| == 0;
    }

    /** The separator before a value, and the count of values. */
    method Prefix(isString: bool)
      requires PrefixOk(State(), isString)
      modifies this
      ensures out == old(out) + Mark(old(State())) && State() == Prefixed(old(State()))
    {
      if |levels| != 0 {
        var level := levels[|levels| - 1];
        if level.valueCount > 0 {
          if level.inArray {
            out := out + [COMMA];
          } else {
            out := out + [if level.valueCount % 2 == 0 then COMMA else COLON];
          }
        }
        levels := levels[..|levels| - 1] + [Level(level.valueCount + 1, level.inArray)];
      } else {
        hasRoot := true;
      }
    }

    method WriteChar(c: byte)
      modifies `out
      ensures out == old(out) + EscapeByte(c)
    {
      var letter := EscapeLetter(c);
      if letter != NUL {
        out := out + [BACKSLASH] + [letter];
        if letter == LOWER_U {
          out := out + [DIGIT0] + [DIGIT0] + [HexDigit(c / 16)] + [HexDigit(c % 16)];
        }
      } else {
        out := out + [c];
      }
    }

    method WriteString(s: bytes)
      modifies `out
      ensures out == old(out) + QuoteString(s)
    {
      hide EscapeByte;
      ghost var whole := out + QuoteString(s);
      out := out + [QUOTE];
      var i := 0;
      assert s[0..] == s;
      while i < |s|
        invariant i <= |s|
        invariant out + (EscapeAll(s[i..]) + [QUOTE]) == whole
      {
        WriteChar(s[i]);
        assert s[i..][1..] == s[i + 1..];
        i := i + 1;
      }
      out := out + [QUOTE];
    }

    /** A value that is not a container, or a name: separator, then token. */
    method WriteAtom(e: Event)
      requires Printable(e) && !IsEnd(e) && !e.StartObject? && !e.StartArray?
      modifies `out
      ensures out == old(out) + TokenText(e)
    {
      match e
      case String(s) => WriteString(s);
      case Key(s) => WriteString(s);
      case _ => out := out + TokenText(e);
    }

    /** Any handler event. */
    method Handle(e: Event)
      requires Accepts(State(), e)
      modifies this
      ensures out == old(out) + Put(Compact, old(State()), e)
      ensures State() == Next(old(State()), e)
    {
      hide TokenText, Mark;
      if IsEnd(e) {
        levels := levels[..|levels| - 1];
        out := out + TokenText(e);
        assert Front(Compact, old(State()), e) == [];
      } else {
        Prefix(IsStringEvent(e));
        assert Front(Compact, old(State()), e) == Mark(old(State()));
        if e.StartObject? || e.StartArray? {
          levels := levels + [Level(0, e.StartArray?)];
          out := out + TokenText(e);
        } else {
          WriteAtom(e);
        }
      }
    }

    /** A whole run of events. */
    method HandleAll(es: seq<Event>)
      requires Legal(State(), es)
      modifies this
      ensures out == old(out) + Print(Compact, old(State()), es)
      ensures State() == Reached(old(State()), es)
    {
      hide Put, Next, Accepts;
      ghost var start := State();
      ghost var whole := out + Print(Compact, start, es);
      var i := 0;
      assert es[0..] == es;
      while i < |es|
        invariant i <= |es| && Legal(State(), es[i..])
        invariant out + Print(Compact, State(), es[i..]) == whole
        invariant Reached(State(), es[i..]) == Reached(start, es)
      {
        assert es[i..][1..] == es[i + 1..];
        Handle(es[i]);
        i := i + 1;
      }
    }
  }

  class PrettyWriter {
    const base: Writer
    var indentChar: byte
    var indentCharCount: nat

    ghost function Manner(): Style
      reads this
    {
      Pretty(indentChar, indentCharCount)
    }

    constructor ()
      ensures fresh(base) && base.out == [] && base.State() == BLANK
      ensures Manner() == Pretty(SPACE, 4)
    {
      base := new Writer();
      indentChar, indentCharCount := SPACE, 4;
    }

    method SetIndent(c: byte, n: nat)
      requires IsSpace(c)
      modifies this
      ensures Manner() == Pretty(c, n) && StyleOk(Manner())
    {
      indentChar, indentCharCount := c, n;
    }

    method WriteIndent()
      modifies base`out
      ensures base.out == old(base.out) + Indent(Manner(), |base.levels|)
    {
      var c, count := indentChar, |base.levels| * indentCharCount;
      ghost var spaces := Indent(Manner(), |base.levels|);
      var i := 0;
      while i < count
        invariant i <= count
        invariant base.out == old(base.out) + spaces[..i]
      {
        base.out := base.out + [c];
        i := i + 1;
      }
    }

    method PrettyPrefix(isString: bool)
      requires PrefixOk(base.State(), isString)
      modifies base
      ensures base.out == old(base.out) + (Mark(old(base.State())) + Pad(Manner(), old(base.State())))
      ensures base.State() == Prefixed(old(base.State()))
    {
      hide Indent;
      if |base.levels| != 0 {
        var level := base.levels[|base.levels| - 1];
        if level.inArray {
          if level.valueCount > 0 {
            base.out := base.out + [COMMA];
            base.out := base.out + [LF];
          } else {
            base.out := base.out + [LF];
          }
          WriteIndent();
        } else {
          if level.valueCount > 0 {
            if level.valueCount % 2 == 0 {
              base.out := base.out + [COMMA];
              base.out := base.out + [LF];
            } else {
              base.out := base.out + [COLON];
              base.out := base.out + [SPACE];
            }
          } else {
            base.out := base.out + [LF];
          }
          if level.valueCount % 2 == 0 {
            WriteIndent();
          }
        }
        base.levels := base.levels[..|base.levels| - 1] + [Level(level.valueCount + 1, level.inArray)];
      } else {
        base.hasRoot := true;
      }
    }

    method Handle(e: Event)
      requires Accepts(base.State(), e)
      modifies base
      ensures base.out == old(base.out) + Put(Manner(), old(base.State()), e)
      ensures base.State() == Next(old(base.State()), e)
    {
      hide TokenText, Mark, Pad, EndPad, Indent, Prefixed;
      if IsEnd(e) {
        Leave();
        base.out := base.out + TokenText(e);
      } else {
        PrettyPrefix(IsStringEvent(e));
        if e.StartObject? || e.StartArray? {
          base.levels := base.levels + [Level(0, e.StartArray?)];
          base.out := base.out + TokenText(e);
        } else {
          base.WriteAtom(e);
        }
      }
    }

    /** Leaves the innermost level; its closing bracket goes on a line of its own unless it is
        empty. */
    method Leave()
      requires base.levels != []
      modifies base
      ensures base.out == old(base.out) + EndPad(Manner(), old(base.State()))
      ensures base.levels == old(base.levels[..|base.levels| - 1]) && base.hasRoot == old(base.hasRoot)
    {
      hide Indent;
      var empty := base.levels[|base.levels| - 1].valueCount == 0;
      base.levels := base.levels[..|base.levels| - 1];
      if !empty {
        base.out := base.out + [LF];
        WriteIndent();
      }
    }

    /** A whole run of events, indented. */
    method HandleAll(es: seq<Event>)
      requires Legal(base.State(), es)
      modifies base
      ensures base.out == old(base.out) + Print(Manner(), old(base.State()), es)
      ensures base.State() == Reached(old(base.State()), es)
    {
      hide Put, Next, Accepts;
      ghost var start := base.State();
      ghost var whole := base.out + Print(Manner(), start, es);
      var i := 0;
      assert es[0..] == es;
      while i < |es|
        invariant i <= |es| && Legal(base.State(), es[i..])
        invariant base.out + Print(Manner(), base.State(), es[i..]) == whole
        invariant Reached(base.State(), es[i..]) == Reached(start, es)
      {
        assert es[i..][1..] == es[i + 1..];
        Handle(es[i]);
        i := i + 1;
      }
    }
  }
}
