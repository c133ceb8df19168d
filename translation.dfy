/** The translation service: a language pack held as a tree of strings, the
    dotted-key lookup every view uses, and the load/switch transition that
    replaces the pack and updates the persisted preference and the document's
    `dir` and `lang` attributes. */
module Translation {
  import opened JsString
  import opened Optional

  /** A language pack as parsed from its JSON file: a string, or an object whose
      properties are packs. */
  datatype Node = Leaf(text: string) | Tree(children: map<string, Node>)

  /** The pack before any file has arrived: `{}`. */
  const EmptyPack := Tree(map[])

  /** The `localStorage` key of the remembered language. */
  const LanguageKey := "language"

  /** The language used when none was remembered. */
  const DefaultLanguage := "en"

  /** The one right-to-left language. */
  const RtlLanguage := "ar"

  /** JavaScript truthiness of a looked-up value: `undefined` and `''` are
      falsy, every object is truthy. */
  predicate Truthy(v: Option<Node>): (b: bool)
    ensures v.None? || v == Some(Leaf("")) ==> !b
    ensures v.Some? && (v.value.Tree? || v.value.text != "") ==> b
  {
    match v
    case None => false
    case Some(Leaf(s)) => s != ""
    case Some(Tree(_)) => true
  }

  /** `result[k]` on an object: the property, or `undefined`. */
  function Child(children: map<string, Node>, k: string): Option<Node> {
    if k in children then Some(children[k]) else None
  }

  /** Where the walk of `get` ends: it gave up on a value that is not an
      object, or it consumed every segment and holds a value (maybe `undefined`). */
  datatype Walk = Stuck | Reached(value: Option<Node>)

  /** The loop of `get`: while segments remain, descend into the current value
      if it is an object, otherwise give up. */
  function WalkPath(cur: Option<Node>, keys: seq<string>): (w: Walk)
    ensures keys != [] && w.Reached? ==> cur.Some? && cur.value.Tree?
    decreases |keys|
  {
    if keys == [] then Reached(cur)
    else if cur.Some? && cur.value.Tree? then WalkPath(Child(cur.value.children, keys[0]), keys[1..])
    else Stuck
  }

  /** What `get(key)` returns on `pack`: the value the dotted path leads to,
      or the key itself when the walk gives up or ends on a falsy value. */
  function Lookup(pack: Node, key: string): (r: Node)
    ensures r == Leaf(key) ||
            (WalkPath(Some(pack), Split(key, '.')) == Reached(Some(r)) && Truthy(Some(r)))
    ensures forall v :: WalkPath(Some(pack), Split(key, '.')) == Reached(Some(v)) && Truthy(Some(v)) ==> r == v
  {
    match WalkPath(Some(pack), Split(key, '.'))
    case Stuck => Leaf(key)
    case Reached(v) => if Truthy(v) then v.value else Leaf(key)
  }

  /** Walking a concatenated path is walking the first part, then the second. */
  lemma {:induction false} WalkPathAppend(cur: Option<Node>, a: seq<string>, b: seq<string>)
    ensures WalkPath(cur, a + b) ==
              match WalkPath(cur, a)
              case Stuck => Stuck
              case Reached(v) => WalkPath(v, b)
    decreases |a|
  {
    if a == [] {
      assert a + b == b;
    } else {
      assert (a + b)[1..] == a[1..] + b;
      if cur.Some? && cur.value.Tree? {
        WalkPathAppend(Child(cur.value.children, a[0]), a[1..], b);
      }
    }
  }

  /** As soon as a proper prefix of the segments leads to something that is
      not an object (a missing property or a string), `get` returns the key. */
  lemma LookupGivesUpEarly(pack: Node, key: string, j: nat)
    requires j < |Split(key, '.')|
    requires WalkPath(Some(pack), Split(key, '.')[..j]).Reached?
    requires var v := WalkPath(Some(pack), Split(key, '.')[..j]).value; !(v.Some? && v.value.Tree?)
    ensures Lookup(pack, key) == Leaf(key)
  {
    var keys := Split(key, '.');
    assert keys == keys[..j] + keys[j..];
    WalkPathAppend(Some(pack), keys[..j], keys[j..]);
  }

  /** A path that ends on a falsy value (a missing property or `''`) yields the key. */
  lemma LookupFalsyFallsBack(pack: Node, key: string)
    requires WalkPath(Some(pack), Split(key, '.')).Reached?
    requires !Truthy(WalkPath(Some(pack), Split(key, '.')).value)
    ensures Lookup(pack, key) == Leaf(key)
  {
  }

  /** On the initial pack `{}` every key resolves to itself. */
  lemma LookupEmptyPack(key: string)
    ensures Lookup(EmptyPack, key) == Leaf(key)
  {
    var keys := Split(key, '.');
    assert WalkPath(Some(EmptyPack), keys) == WalkPath(None, keys[1..]);
  }

  /** `pack` with `text` stored under the path `keys`: objects are created
      along the way, and a string in the way is replaced by an object. */
  function Put(pack: Node, keys: seq<string>, text: string): Node
    decreases |keys|
  {
    if keys == [] then Leaf(text)
    else
      var children := if pack.Tree? then pack.children else map[];
      var sub := if keys[0] in children then children[keys[0]] else EmptyPack;
      Tree(children[keys[0] := Put(sub, keys[1..], text)])
  }

  /** The path a text was stored under leads back to it. */
  lemma {:induction false} WalkPathPut(pack: Node, keys: seq<string>, text: string)
    ensures WalkPath(Some(Put(pack, keys, text)), keys) == Reached(Some(Leaf(text)))
    decreases |keys|
  {
    if keys != [] {
      var children := if pack.Tree? then pack.children else map[];
      var sub := if keys[0] in children then children[keys[0]] else EmptyPack;
      WalkPathPut(sub, keys[1..], text);
    }
  }

  /** A non-empty text stored under a dotted key is what `get` returns for that
      key; an empty text falls back to the key. */
  lemma LookupPut(pack: Node, key: string, text: string)
    ensures Lookup(Put(pack, Split(key, '.'), text), key) == if text != "" then Leaf(text) else Leaf(key)
  {
    WalkPathPut(pack, Split(key, '.'), text);
  }

  /** The text direction `loadLanguage` gives the document for a language. */
  function DirectionFor(lang: string): (dir: string)
    ensures dir == "rtl" <==> lang == RtlLanguage
    ensures dir == "ltr" <==> lang != RtlLanguage
  {
    if lang == RtlLanguage then "rtl" else "ltr"
  }

  /** The language the service starts with: the remembered one if any
      (a missing or empty entry counts as none), otherwise English. */
  function InitialLanguage(storage: map<string, string>): (lang: string)
    ensures lang != ""
    ensures LanguageKey in storage && storage[LanguageKey] != "" ==> lang == storage[LanguageKey]
    ensures !(LanguageKey in storage && storage[LanguageKey] != "") ==> lang == DefaultLanguage
  {
    if LanguageKey in storage && storage[LanguageKey] != "" then storage[LanguageKey] else DefaultLanguage
  }

  /** One entry of the language menu. */
  datatype LanguageOption = LanguageOption(code: string, name: string, flag: string)

  /** `getAvailableLanguages`: the four supported languages, in menu order. */
  function AvailableLanguages(): (r: seq<LanguageOption>)
    ensures |r| == 4
    ensures r[0].code == "en" && r[1].code == "ar" && r[2].code == "de" && r[3].code == "tr"
    ensures forall i, j :: 0 <= i < j < |r| ==> r[i].code != r[j].code
    ensures exists i :: 0 <= i < |r| && r[i].code == DefaultLanguage
  {
    [LanguageOption("en", "English", "\U{1F1EC}\U{1F1E7}"),
     LanguageOption("ar", "\U{627}\U{644}\U{639}\U{631}\U{628}\U{64A}\U{629}", "\U{1F1EA}\U{1F1EC}"),
     LanguageOption("de", "Deutsch", "\U{1F1E9}\U{1F1EA}"),
     LanguageOption("tr", "T\U{FC}rk\U{E7}e", "\U{1F1F9}\U{1F1F7}")]
  }

  /** The service. The browser state it touches is held in fields of its own:
      `storage` for `localStorage`, `documentDir` and `documentLang` for the
      `dir` and `lang` attributes of the document element. The outcome of the
      HTTP request for a pack is an input: `Some(pack)` when it arrives,
      `None` when it fails. */
  class TranslationService {
    var translations: Node
    var currentLanguage: string
    var storage: map<string, string>
    var documentDir: string
    var documentLang: string

    /** Starts from the empty pack and English, then loads the remembered
        language, or English when none is remembered. */
    constructor (storage: map<string, string>, documentDir: string, documentLang: string, response: Option<Node>)
      ensures response.Some? ==>
                translations == response.value && currentLanguage == InitialLanguage(storage) &&
                this.storage == storage[LanguageKey := InitialLanguage(storage)] &&
                this.documentDir == DirectionFor(InitialLanguage(storage)) &&
                this.documentLang == InitialLanguage(storage)
      ensures response.None? ==>
                translations == EmptyPack && currentLanguage == DefaultLanguage &&
                this.storage == storage && this.documentDir == documentDir && this.documentLang == documentLang
    {
      translations := EmptyPack;
      currentLanguage := DefaultLanguage;
      this.storage := storage;
      this.documentDir := documentDir;
      this.documentLang := documentLang;
      new;
      LoadLanguage(InitialLanguage(storage), response);
    }

    /** `loadLanguage`: on arrival the pack replaces the old one wholesale, and
        the language, its remembered value and the document attributes follow;
        a failed request changes nothing. */
    method LoadLanguage(lang: string, response: Option<Node>)
      modifies this
      ensures response.Some? ==>
                translations == response.value && currentLanguage == lang &&
                storage == old(storage)[LanguageKey := lang] &&
                documentDir == DirectionFor(lang) && documentLang == lang
      ensures response.None? ==>
                translations == old(translations) && currentLanguage == old(currentLanguage) &&
                storage == old(storage) && documentDir == old(documentDir) && documentLang == old(documentLang)
    {
      if response.Some? {
        translations := response.value;
        currentLanguage := lang;
        storage := storage[LanguageKey := lang];
        if lang == RtlLanguage {
          documentDir := "rtl";
          documentLang := RtlLanguage;
        } else {
          documentDir := "ltr";
          documentLang := lang;
        }
      }
    }

    /** `switchLanguage`: exactly a load. */
    method SwitchLanguage(lang: string, response: Option<Node>)
      modifies this
      ensures response.Some? ==>
                translations == response.value && currentLanguage == lang &&
                storage == old(storage)[LanguageKey := lang] &&
                documentDir == DirectionFor(lang) && documentLang == lang
      ensures response.None? ==>
                translations == old(translations) && currentLanguage == old(currentLanguage) &&
                storage == old(storage) && documentDir == old(documentDir) && documentLang == old(documentLang)
    {
      LoadLanguage(lang, response);
    }

    /** `get`: walks the dotted key through the current pack; only reads. */
    method Get(key: string) returns (r: Node)
      ensures r == Lookup(translations, key)
    {
      var keys := Split(key, '.');
      var result := Some(translations);
      for i := 0 to |keys|
        invariant WalkPath(result, keys[i..]) == WalkPath(Some(translations), keys)
      {
        assert keys[i..][0] == keys[i] && keys[i..][1..] == keys[i + 1..];
        if result.Some? && result.value.Tree? {
          result := Child(result.value.children, keys[i]);
        } else {
          return Leaf(key);
        }
      }
      r := if Truthy(result) then result.value else Leaf(key);
    }
  }
}
