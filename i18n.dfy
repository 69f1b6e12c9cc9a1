/**
 * `useI18n` (src/composables/useI18n.js): dotted-key lookup in nested message tables and
 * the module-wide current locale.
 */
module I18n {
  import opened Wrappers
  import opened Strings

  /** A locale file's content: strings and nested objects of them. */
  datatype Message = Text(text: string) | Table(entries: map<string, Message>)

  /** Walk `keys` down from `m`; `None` once a key is missing or the walk meets a string too early. */
  function Lookup(m: Message, keys: seq<string>): Option<Message>
    decreases |keys|
  {
    if keys == [] then Some(m)
    else if m.Table? && keys[0] in m.entries then Lookup(m.entries[keys[0]], keys[1..])
    else None
  }

  /** What `t(path)` answers against the table `messages`: the value reached, or `path` itself. */
  function Translate(messages: Message, path: string): Message {
    match Lookup(messages, Split(path, '.'))
    case Some(value) => value
    case None => Text(path)
  }

  /**
   * Independent description of a successful walk: `nodes` are the values visited, each
   * one an object holding the next key.
   */
  ghost predicate Chain(m: Message, keys: seq<string>, nodes: seq<Message>) {
    && |nodes| == |keys| + 1
    && nodes[0] == m
    && forall i :: 0 <= i < |keys| ==>
         nodes[i].Table? && keys[i] in nodes[i].entries && nodes[i].entries[keys[i]] == nodes[i + 1]
  }

  /** A walk that succeeds follows a chain of objects to the value it returns. */
  lemma {:induction false} LookupSound(m: Message, keys: seq<string>, value: Message)
    requires Lookup(m, keys) == Some(value)
    ensures exists nodes :: Chain(m, keys, nodes) && nodes[|keys|] == value
    decreases |keys|
  {
    if keys == [] {
      assert Chain(m, keys, [m]);
    } else {
      var next := m.entries[keys[0]];
      LookupSound(next, keys[1..], value);
      var rest :| Chain(next, keys[1..], rest) && rest[|keys| - 1] == value;
      var nodes := [m] + rest;
      assert forall i :: 0 < i <= |keys| ==> nodes[i] == rest[i - 1];
      assert Chain(m, keys, nodes);
    }
  }

  /** Every chain of objects is followed by the walk. */
  lemma {:induction false} LookupComplete(m: Message, keys: seq<string>, nodes: seq<Message>)
    requires Chain(m, keys, nodes)
    ensures Lookup(m, keys) == Some(nodes[|keys|])
    decreases |keys|
  {
    if keys != [] {
      assert nodes[0].entries[keys[0]] == nodes[1];
      var rest := nodes[1..];
      assert forall i :: 0 <= i < |keys| - 1 ==> keys[1..][i] == keys[i + 1] && rest[i] == nodes[i + 1];
      assert Chain(nodes[1], keys[1..], rest);
      LookupComplete(nodes[1], keys[1..], rest);
    }
  }

  /** Walking `a + b` is walking `a`, then `b` from where `a` ended. */
  lemma {:induction false} LookupAppend(m: Message, a: seq<string>, b: seq<string>)
    ensures Lookup(m, a + b) == match Lookup(m, a) case Some(x) => Lookup(x, b) case None => None
    decreases |a|
  {
    if a == [] {
      assert a + b == b;
    } else {
      assert (a + b)[0] == a[0] && (a + b)[1..] == a[1..] + b;
      if m.Table? && a[0] in m.entries {
        LookupAppend(m.entries[a[0]], a[1..], b);
      }
    }
  }

  /**
   * A missing key anywhere makes `t` answer its input unchanged, including when the walk
   * meets a string before the last key.
   */
  lemma MissingKeyGivesPath(messages: Message, path: string, i: nat, at: Message)
    requires i < |Split(path, '.')|
    requires Lookup(messages, Split(path, '.')[..i]) == Some(at)
    requires at.Text? || Split(path, '.')[i] !in at.entries
    ensures Translate(messages, path) == Text(path)
  {
    var keys := Split(path, '.');
    assert keys == keys[..i] + keys[i..];
    LookupAppend(messages, keys[..i], keys[i..]);
  }

  /** For keys without dots, `t` of their dotted join returns the value the walk reaches (a string or a subtree). */
  lemma TranslateJoined(messages: Message, keys: seq<string>, value: Message)
    requires |keys| >= 1 && forall i :: 0 <= i < |keys| ==> '.' !in keys[i]
    requires Lookup(messages, keys) == Some(value)
    ensures Translate(messages, Join(keys, '.')) == value
  {
    SplitJoin(keys, '.');
  }

  /** The locale `useI18n` starts with. */
  const InitialLocale: string := "zh-CN"

  /** The module state of useI18n.js: the `messages` object and the `currentLocale` ref. */
  class Translator {
    const messages: map<string, Message>
    var currentLocale: string

    ghost predicate Valid()
      reads this
    {
      currentLocale in messages
    }

    /** The module's initialisation: the two bundled locales, Chinese first. */
    constructor (zhCN: Message, enUS: Message)
      ensures Valid()
      ensures messages == map["zh-CN" := zhCN, "en-US" := enUS]
      ensures currentLocale == InitialLocale
    {
      messages := map["zh-CN" := zhCN, "en-US" := enUS];
      currentLocale := InitialLocale;
    }

    /** `t(path)`: split on '.', then step into each key while the value is an object that has it. */
    method T(path: string) returns (r: Message)
      requires Valid()
      ensures r == Translate(messages[currentLocale], path)
    {
      var keys := Split(path, '.');
      var value := messages[currentLocale];
      for i := 0 to |keys|
        invariant Lookup(messages[currentLocale], keys[..i]) == Some(value)
      {
        var key := keys[i];
        LookupAppend(messages[currentLocale], keys[..i], [key]);
        assert keys[..i + 1] == keys[..i] + [key];
        if value.Table? && key in value.entries {
          value := value.entries[key];
        } else {
          MissingKeyGivesPath(messages[currentLocale], path, i, value);
          return Text(path);
        }
      }
      assert keys[..|keys|] == keys;
      return value;
    }

    /** `setLocale(locale)`: only a registered locale is taken. */
    method SetLocale(locale: string)
      requires Valid()
      modifies this
      ensures Valid()
      ensures currentLocale == if locale in messages then locale else old(currentLocale)
    {
      if locale in messages {
        currentLocale := locale;
      }
    }
  }
}
