/** The help centre's FAQ search, `app/ajuda/page.tsx`: the fixed list of
    questions and the filter that keeps those whose question or answer
    contains the search text, ignoring letter case. */
module HelpFaq {
  import opened Sequences

  datatype Faq = Faq(id: int, question: string, answer: string)

  const Faqs: seq<Faq> := [
    Faq(1, "Como criar uma conta no Nexus?",
        "Clique no botão \"Criar Conta\" na página inicial e preencha seus dados."),
    Faq(2, "Como posso colaborar em um projeto?",
        "Navegue até a página de Projetos, encontre o projeto desejado e clique em \"Colaborar\"."),
    Faq(3, "Como usar o Kanban?",
        "O Kanban ajuda você a organizar tarefas em colunas: A Fazer, Em Progresso, Revisão e Concluído."),
    Faq(4, "Como adicionar amigos?",
        "Na página de Amigos, clique no botão \"Adicionar\" ao lado do perfil que deseja seguir.")
  ]

  /** `toLowerCase` on one character, for the Basic Latin and Latin-1
      letters: `A`-`Z` and `À`-`Þ` (but `×`) move to their lower-case forms. */
  function LowerChar(c: char): (d: char)
    ensures 'A' <= c <= 'Z' ==> d as int == c as int + 32
    ensures !('A' <= d <= 'Z')
  {
    if 'A' <= c <= 'Z' || ('\U{00C0}' <= c <= '\U{00DE}' && c != '\U{00D7}') then (c as int + 32) as char
    else c
  }

  /** `s.toLowerCase()`, character by character. */
  function ToLower(s: string): (r: string)
    ensures |r| == |s|
    ensures forall i :: 0 <= i < |s| ==> r[i] == LowerChar(s[i])
  {
    seq(|s|, i requires 0 <= i < |s| => LowerChar(s[i]))
  }

  /** Lower-casing twice is lower-casing once. */
  lemma ToLowerIdempotent(s: string)
    ensures ToLower(ToLower(s)) == ToLower(s)
  {
    forall i | 0 <= i < |s|
      ensures ToLower(ToLower(s))[i] == ToLower(s)[i]
    {
      var c := s[i];
      if '\U{00C0}' <= c <= '\U{00DE}' && c != '\U{00D7}' {
        assert '\U{00E0}' <= LowerChar(c) <= '\U{00FE}';
      }
    }
  }

  /** `s.includes(sub)`: `sub` is a prefix of some suffix of `s`. */
  predicate Contains(s: string, sub: string) {
    sub <= s || (|s| > 0 && Contains(s[1..], sub))
  }

  /** `sub` occurs in `s` starting at position `i`. */
  predicate OccursAt(s: string, sub: string, i: int) {
    0 <= i <= |s| - |sub| && s[i..i + |sub|] == sub
  }

  /** An occurrence anywhere makes `includes` true. */
  lemma {:induction false} OccursAtContains(s: string, sub: string, i: int)
    requires OccursAt(s, sub, i)
    ensures Contains(s, sub)
  {
    if i > 0 {
      assert s[1..][i - 1..i - 1 + |sub|] == s[i..i + |sub|];
      OccursAtContains(s[1..], sub, i - 1);
    }
  }

  /** `includes` is true only where there is an occurrence. */
  lemma {:induction false} ContainsOccurs(s: string, sub: string) returns (i: int)
    requires Contains(s, sub)
    ensures OccursAt(s, sub, i)
  {
    if sub <= s {
      i := 0;
    } else {
      var j := ContainsOccurs(s[1..], sub);
      assert s[j + 1..j + 1 + |sub|] == s[1..][j..j + |sub|];
      i := j + 1;
    }
  }

  /** `includes` holds exactly when `sub` occurs at some position of `s`. */
  lemma ContainsMeans(s: string, sub: string)
    ensures Contains(s, sub) <==> exists i :: OccursAt(s, sub, i)
  {
    if Contains(s, sub) {
      var i := ContainsOccurs(s, sub);
    }
    if exists i :: OccursAt(s, sub, i) {
      var i :| OccursAt(s, sub, i);
      OccursAtContains(s, sub, i);
    }
  }

  /** The test the `filteredFaqs` callback applies. */
  predicate Matches(faq: Faq, search: string) {
    Contains(ToLower(faq.question), ToLower(search)) || Contains(ToLower(faq.answer), ToLower(search))
  }

  /** `filteredFaqs`: the FAQs whose lower-cased question or answer contains
      the lower-cased search, in their order; an empty search keeps all. */
  function FilteredFaqs(faqs: seq<Faq>, search: string): (r: seq<Faq>)
    ensures SubsequenceOf(r, faqs)
    ensures forall f :: f in r <==> f in faqs && Matches(f, search)
    ensures search == "" ==> r == faqs
  {
    var r := Filter(faqs, (f: Faq) => Matches(f, search));
    if search == "" then
      assert forall f :: f in faqs ==> Matches(f, search) by {
        forall f | f in faqs ensures Matches(f, search) {
          assert ToLower(search) == "";
        }
      }
      FilterKeepsAll(faqs, (f: Faq) => Matches(f, search));
      r
    else r
  }

  /** Searches that differ only in letter case find the same FAQs. */
  lemma SearchIgnoresCase(faqs: seq<Faq>, s1: string, s2: string)
    requires ToLower(s1) == ToLower(s2)
    ensures FilteredFaqs(faqs, s1) == FilteredFaqs(faqs, s2)
  {
    FilterSame(faqs, (f: Faq) => Matches(f, s1), (f: Faq) => Matches(f, s2));
  }

  /** Searching "KANBAN" keeps the Kanban question. */
  lemma KanbanFindsFaq3()
    ensures Faqs[2] in FilteredFaqs(Faqs, "KANBAN")
  {
    var question := Faqs[2].question;
    var q := ToLower(question);
    var k := ToLower("KANBAN");
    assert k == "kanban";
    assert question[12..18] == "Kanban";
    assert q[12..18] == "kanban";
    OccursAtContains(q, k, 12);
    assert Faqs[2] in Faqs;
  }
}
