/**
 The framework-independent logic of `DjangoResource`, the Django adapter of
 the restless `Resource`: the route names generated for a resource class,
 the pair of routes that `urls` registers, the rewriting of Django's
 "does not exist" errors into `NotFound`, and the JSON response record.
 A class is represented by its name (`cls.__name__`).
 */
module DjangoResource {
  import opened PyStr

  datatype Option<T> = None | Some(value: T)

  /** The word removed from class names when a default prefix is built. */
  const ResourceWord: string := "Resource"

  /** The prefix used when the caller gives none:
      `'api_'` followed by the lower-cased class name without any `Resource`. */
  function DefaultPrefix(className: string): (p: string)
    ensures StartsWith(p, "api_")
    ensures forall i :: 4 <= i < |p| ==> !IsAsciiUpper(p[i])
  {
    "api_" + Lower(ReplaceAll(className, ResourceWord, ""))
  }

  /** The default prefix is the class name, eight characters shorter for each
      `Resource` that `count` finds in it, behind the four of `api_`. */
  lemma DefaultPrefixLength(className: string)
    ensures |DefaultPrefix(className)| == 4 + |className| - |ResourceWord| * Count(className, ResourceWord)
  {
    ReplaceLength(className, ResourceWord, "");
    assert |ResourceWord| == 8;
  }

  /** The prefix in force: the caller's when given, even an empty one (the
      source tests `is None`, not falsiness), the default otherwise. */
  function EffectivePrefix(className: string, namePrefix: Option<string>): (p: string)
    ensures namePrefix.Some? ==> p == namePrefix.value
    ensures namePrefix.None? ==> StartsWith(p, "api_") && forall i :: 4 <= i < |p| ==> !IsAsciiUpper(p[i])
  {
    match namePrefix
    case Some(p) => p
    case None => DefaultPrefix(className)
  }

  /** `build_url_name(name, name_prefix)`. The result is the prefix in force
      with its trailing underscores removed and nothing else changed,
      followed by one `_` and `name`. */
  function BuildUrlName(className: string, name: string, namePrefix: Option<string>): (r: string)
    ensures EndsWith(r, "_" + name)
    ensures var p, q := EffectivePrefix(className, namePrefix), r[..|r| - |name| - 1];
      && q <= p
      && (q == [] || q[|q| - 1] != '_')
      && (forall i :: |q| <= i < |p| ==> p[i] == '_')
  {
    var stripped := RStrip(EffectivePrefix(className, namePrefix), '_');
    JoinPair("_", stripped, name);
    Join("_", [stripped, name])
  }

  /** With an explicit prefix `p` the name is `p` right-stripped of `_`, then
      `_`, then `name`; the class plays no part. */
  lemma ExplicitPrefix(className: string, otherClass: string, name: string, p: string)
    ensures BuildUrlName(className, name, Some(p)) == RStrip(p, '_') + "_" + name
    ensures BuildUrlName(className, name, Some(p)) == BuildUrlName(otherClass, name, Some(p))
  {
    JoinPair("_", RStrip(p, '_'), name);
  }

  /** Trailing underscores on an explicit prefix make no difference. */
  lemma TrailingUnderscoresIgnored(className: string, name: string, p: string, k: nat)
    ensures BuildUrlName(className, name, Some(p + Repeat('_', k))) == BuildUrlName(className, name, Some(p))
  {
    ExplicitPrefix(className, className, name, p + Repeat('_', k));
    ExplicitPrefix(className, className, name, p);
    RStripTrailing(p, '_', k);
  }

  /** The prefixes `"api_"` and `"api"` give the same names. */
  lemma ApiPrefixSpellings(className: string, name: string)
    ensures BuildUrlName(className, name, Some("api_")) == BuildUrlName(className, name, Some("api"))
    ensures BuildUrlName(className, name, Some("api")) == "api_" + name
  {
    assert "api_" == "api" + Repeat('_', 1);
    TrailingUnderscoresIgnored(className, name, "api", 1);
    ExplicitPrefix(className, className, name, "api");
  }

  /** The `R` of `Resource` occurs nowhere else in the word, so two
      occurrences of `Resource` never overlap. */
  lemma ResourceWordLeadUnique()
    ensures LeadUnique(ResourceWord)
  {
  }

  /** A class named `<Base>Resource`, where `Base` does not contain `Resource`
      and does not end in `_`, gets the route name `api_<base>_<name>`:
      `Base` lower-cased, with no separator inserted between its words. */
  lemma DefaultPrefixOfResourceClass(base: string, name: string)
    requires Free(base, ResourceWord)
    requires base != [] && base[|base| - 1] != '_'
    ensures BuildUrlName(base + ResourceWord, name, None) == "api_" + Lower(base) + "_" + name
  {
    ResourceWordLeadUnique();
    RemoveTrailingWord(base, ResourceWord);
    DefaultPrefixExplicit(base + ResourceWord, base, name);
  }

  /** A class named exactly `Resource` has the default prefix `"api_"`, which
      is stripped to `"api"`. */
  lemma BareResourceClass(name: string)
    ensures DefaultPrefix(ResourceWord) == "api_"
    ensures BuildUrlName(ResourceWord, name, None) == "api_" + name
  {
    assert ResourceWord + [] == ResourceWord;
    ResourceWordLeadUnique();
    RemoveTrailingWord([], ResourceWord);
    ApiPrefixSpellings(ResourceWord, name);
  }

  /** `BlogPostResource` gives `api_blogpost_list` and `api_blogpost_detail`
      (any suffix `name` is joined the same way). */
  lemma BlogPostResourceNames(name: string)
    ensures BuildUrlName("BlogPostResource", name, None) == "api_blogpost_" + name
  {
    BlogPostFacts();
    DefaultPrefixOfResourceClass("BlogPost", name);
  }

  /* The facts about literals that the example lemmas need are proved in
     lemmas of their own, away from `BuildUrlName`: with both in one proof
     the solver unfolds the string functions on the literals and runs out of
     resource. */

  lemma BlogPostFacts()
    ensures "BlogPostResource" == "BlogPost" + ResourceWord
    ensures Free("BlogPost", ResourceWord)
    ensures "api_" + Lower("BlogPost") + "_" == "api_blogpost_"
  {
    assert "BlogPost"[0..8][0] != ResourceWord[0];
    assert Lower("BlogPost")[0] == 'b' && Lower("BlogPost")[4] == 'p';
  }

  /** Every occurrence of `Resource` is removed, however many there are: a
      class name made of pieces free of `Resource`, joined by `Resource`,
      gets the pieces run together and lower-cased. */
  lemma ResourceWordsRemoved(parts: seq<string>, name: string)
    requires forall i :: 0 <= i < |parts| ==> Free(parts[i], ResourceWord)
    requires var base := Join([], parts); base != [] && base[|base| - 1] != '_'
    ensures BuildUrlName(Join(ResourceWord, parts), name, None) == "api_" + Lower(Join([], parts)) + "_" + name
  {
    ResourceWordLeadUnique();
    ReplaceJoined(parts, ResourceWord, []);
    DefaultPrefixExplicit(Join(ResourceWord, parts), Join([], parts), name);
  }

  /** Every occurrence of `Resource` is removed, not only a trailing one. */
  lemma EveryResourceRemoved(name: string)
    ensures BuildUrlName("ResourceBlogResource", name, None) == "api_blog_" + name
  {
    var w, base := ResourceWord, "Blog";
    BlogFacts();
    ResourceWordLeadUnique();
    RemoveTrailingWord(base, w);
    ReplaceLeadingWord(w, base + w, []);
    assert [] + base == base;
    DefaultPrefixExplicit("ResourceBlogResource", base, name);
  }

  lemma BlogFacts()
    ensures "ResourceBlogResource" == ResourceWord + ("Blog" + ResourceWord)
    ensures Free("Blog", ResourceWord)
    ensures "api_" + Lower("Blog") + "_" == "api_blog_"
  {
  }

  /** The removal is one scan: a `Resource` formed by gluing together the text
      around a removed one stays in the name. */
  lemma RemovalIsOneScan(name: string)
    ensures BuildUrlName("ResResourceource", name, None) == "api_resource_" + name
  {
    var w, x, y := ResourceWord, "Res", "ource";
    ResourceWordLeadUnique();
    OneScanFacts();
    RemoveGlued(x, w, y);
    DefaultPrefixExplicit("ResResourceource", w, name);
  }

  lemma OneScanFacts()
    ensures "ResResourceource" == "Res" + ResourceWord + "ource"
    ensures "Res" + "ource" == ResourceWord
    ensures Free("Res", ResourceWord) && Free("ource", ResourceWord)
    ensures "api_" + Lower(ResourceWord) + "_" == "api_resource_"
  {
    assert Lower(ResourceWord)[0] == 'r';
  }

  /** When removing `Resource` from the class name leaves a non-empty `base`
      that does not end in `_`, the route name is `api_`, the lower-cased
      `base`, `_` and `name`. */
  lemma DefaultPrefixExplicit(className: string, base: string, name: string)
    requires ReplaceAll(className, ResourceWord, "") == base
    requires base != [] && base[|base| - 1] != '_'
    ensures BuildUrlName(className, name, None) == "api_" + Lower(base) + "_" + name
  {
    var p := "api_" + Lower(base);
    assert DefaultPrefix(className) == p;
    LowerCharUnderscore(base[|base| - 1]);
    RStripUnique(p, '_', p);
    ExplicitPrefix(className, className, name, p);
  }

  /** Different route suffixes always give different route names. */
  lemma NameInjective(className: string, namePrefix: Option<string>, name1: string, name2: string)
    requires BuildUrlName(className, name1, namePrefix) == BuildUrlName(className, name2, namePrefix)
    ensures name1 == name2
  {
    var q := RStrip(EffectivePrefix(className, namePrefix), '_');
    match namePrefix
    case Some(p) =>
      ExplicitPrefix(className, className, name1, p);
      ExplicitPrefix(className, className, name2, p);
      assert (q + "_" + name1)[|q| + 1..] == name1;
      assert (q + "_" + name2)[|q| + 1..] == name2;
    case None =>
      var d := DefaultPrefix(className);
      assert BuildUrlName(className, name1, None) == BuildUrlName(className, name1, Some(d));
      assert BuildUrlName(className, name2, None) == BuildUrlName(className, name2, Some(d));
      ExplicitPrefix(className, className, name1, d);
      ExplicitPrefix(className, className, name2, d);
      assert (q + "_" + name1)[|q| + 1..] == name1;
      assert (q + "_" + name2)[|q| + 1..] == name2;
  }

  datatype View = ListView | DetailView

  /** One entry of the URL configuration: a path pattern, the view it
      dispatches to and the name it can be reversed by. */
  datatype Route = Route(pattern: string, view: View, name: string)

  const ListPattern: string := "^$"
  const DetailPattern: string := "^(?P<pk>\\d+)/$"

  /** `urls(name_prefix)`: the list route at the root and the detail route
      keyed by a numeric primary key, named with the suffixes `list` and
      `detail` under one shared prefix. */
  function Urls(className: string, namePrefix: Option<string>): (routes: seq<Route>)
    ensures |routes| == 2
    ensures routes[0] == Route(ListPattern, ListView, BuildUrlName(className, "list", namePrefix))
    ensures routes[1] == Route(DetailPattern, DetailView, BuildUrlName(className, "detail", namePrefix))
    ensures routes[0].name != routes[1].name
  {
    var listName := BuildUrlName(className, "list", namePrefix);
    var detailName := BuildUrlName(className, "detail", namePrefix);
    assert listName != detailName by {
      if listName == detailName {
        NameInjective(className, namePrefix, "list", "detail");
      }
    }
    [Route(ListPattern, ListView, listName), Route(DetailPattern, DetailView, detailName)]
  }

  /** The errors `build_error` distinguishes. `ObjectDoesNotExist` stands for
      that class and its subclasses (every model's `DoesNotExist`);
      `message` is the error's text. */
  datatype Error =
    | ObjectDoesNotExist(message: string)
    | Http404(message: string)
    | NotFound(message: string)
    | OtherError(kind: string, message: string)

  predicate IsDoesNotExist(err: Error) {
    err.ObjectDoesNotExist? || err.Http404?
  }

  /** The error that `build_error` hands on: Django's two "does not exist"
      errors become a `NotFound` with the same text, every other error is
      passed on as it is. */
  function NormalizeError(err: Error): (e: Error)
    ensures e.message == err.message
    ensures IsDoesNotExist(err) ==> e.NotFound?
    ensures !IsDoesNotExist(err) ==> e == err
    ensures !IsDoesNotExist(e)
  {
    if IsDoesNotExist(err) then NotFound(err.message) else err
  }

  /** The outcome is a `NotFound` exactly when the input was one of Django's
      "does not exist" errors or already a `NotFound`; normalising twice
      changes nothing. */
  lemma NormalizeErrorClassifies(err: Error)
    ensures NormalizeError(err).NotFound? <==> IsDoesNotExist(err) || err.NotFound?
    ensures NormalizeError(NormalizeError(err)) == NormalizeError(err)
  {
  }

  /** `build_error(err)`: the inherited formatter, passed in as
      `baseBuildError`, sees the normalised error. */
  function BuildError<R>(err: Error, baseBuildError: Error -> R): (r: R)
    ensures IsDoesNotExist(err) ==> r == baseBuildError(NotFound(err.message))
    ensures !IsDoesNotExist(err) ==> r == baseBuildError(err)
  {
    baseBuildError(NormalizeError(err))
  }

  /** The formatter cannot tell the three "not found" errors apart. */
  lemma NotFoundErrorsAlike<R>(msg: string, baseBuildError: Error -> R)
    ensures BuildError(ObjectDoesNotExist(msg), baseBuildError) == BuildError(NotFound(msg), baseBuildError)
    ensures BuildError(Http404(msg), baseBuildError) == BuildError(NotFound(msg), baseBuildError)
  {
  }

  const JsonContentType: string := "application/json"

  datatype HttpResponse = HttpResponse(content: string, contentType: string, statusCode: int)

  /** `build_response(data, status=200)`: the data as body, JSON as content
      type, the given status. */
  function BuildResponse(data: string, status: int := 200): (resp: HttpResponse)
    ensures resp.content == data
    ensures resp.contentType == JsonContentType
    ensures resp.statusCode == status
  {
    HttpResponse(data, JsonContentType, status)
  }

  /** Without a status the response says 200; every JSON response is the
      one built from its own body and status. */
  lemma BuildResponseDefaults(data: string, resp: HttpResponse)
    ensures BuildResponse(data).statusCode == 200
    ensures resp.contentType == JsonContentType <==> BuildResponse(resp.content, resp.statusCode) == resp
  {
  }
}
