/** The constant tables and small functions of `types/thesis-analysis.ts`:
  * the section types, the system rules, the default checklist of every
  * section, the section labels and the score thresholds with their labels
  * and colours. */
module AnalysisTypes {
  import opened Strings

  /** `SectionType`, in the order the type lists them. */
  datatype SectionType =
    | Title | Abstract | Introduction | LiteratureReview | Methodology
    | Results | Discussion | Conclusion | References

  /** The identifier the source uses for a section type. */
  function SectionId(s: SectionType): string
  {
    match s
    case Title => "title"
    case Abstract => "abstract"
    case Introduction => "introduction"
    case LiteratureReview => "literature-review"
    case Methodology => "methodology"
    case Results => "results"
    case Discussion => "discussion"
    case Conclusion => "conclusion"
    case References => "references"
  }

  // ---------------------------------------------------------------------------
  // Rules

  /** A rule (`caption` is its `label`): a pattern (a regular expression, as text) to look for, for one
    * section or (`None`) for every section. */
  datatype Rule = Rule(
    id: string, caption: string, description: string, pattern: string,
    section: Option<SectionType>, isSystemRule: bool, isEnabled: bool)

  /** `SYSTEM_RULES`. */
  const SystemRules: seq<Rule> := [
    Rule("general-no-first-person", "Evitar primeira pessoa",
      "Texto academico geralmente usa terceira pessoa ou voz passiva",
      "\\b(eu|meu|minha|meus|minhas|nos|nosso|nossa)\\b", None, true, false),
    Rule("general-has-citations", "Possui citacoes",
      "O texto deve conter referencias bibliograficas",
      "\\[@|\\(\\w+,\\s*\\d{4}\\)", None, true, true),
    Rule("intro-has-relevance", "Justificativa da pesquisa",
      "Explica por que a pesquisa e importante",
      "importan|relevan|necessari|fundamental|essencial|justifica|contribui", Some(Introduction), true, true),
    Rule("intro-has-objective", "Objetivo definido",
      "Apresenta o objetivo do estudo",
      "objetivo|visa|pretende|busca|propoe|tem como finalidade", Some(Introduction), true, true),
    Rule("intro-has-problem", "Problema de pesquisa",
      "Define o problema a ser investigado",
      "problema|questao|pergunta|investiga|lacuna", Some(Introduction), true, true),
    Rule("lit-has-comparison", "Comparacao entre autores",
      "Compara diferentes perspectivas teoricas",
      "enquanto|por outro lado|diferente|similar|corrobora|diverge|concorda|discorda", Some(LiteratureReview), true, true),
    Rule("lit-has-gap", "Identifica lacunas",
      "Aponta gaps na literatura",
      "lacuna|gap|poucos estudos|carencia|ainda nao|pouco explorad", Some(LiteratureReview), true, true),
    Rule("method-has-type", "Tipo de pesquisa",
      "Define a natureza da pesquisa",
      "qualitativ|quantitativ|mist|explorator|descritiv|experimental", Some(Methodology), true, true),
    Rule("method-has-sample", "Amostra descrita",
      "Descreve os participantes ou amostra",
      "participante|amostra|sujeito|respondente|entrevistad|\\d+\\s*(pessoa|aluno|professor)", Some(Methodology), true, true),
    Rule("method-has-ethics", "Aspectos eticos",
      "Menciona aprovacao etica ou consentimento",
      "etica|cep|tcle|consentimento|comite|aprovad", Some(Methodology), true, true),
    Rule("disc-connects-literature", "Dialoga com literatura",
      "Conecta resultados com estudos anteriores",
      "corrobora|confirma|vai ao encontro|segundo|de acordo com|conforme|\\[@", Some(Discussion), true, true),
    Rule("disc-has-limitations", "Reconhece limitacoes",
      "Menciona limitacoes do estudo",
      "limitac|limites do estudo|reconhece-se|ressalva", Some(Discussion), true, true),
    Rule("conc-has-synthesis", "Sintese dos resultados",
      "Resume os principais achados",
      "conclui-se|foi possivel|os resultados|em sintese|em suma|portanto", Some(Conclusion), true, true)
  ]

  /** Every system rule is marked as such, and the only one switched off is
    * the first-person rule, which is the first. */
  lemma SystemRulesShape()
    ensures |SystemRules| == 13
    ensures forall i :: 0 <= i < |SystemRules| ==> SystemRules[i].isSystemRule
    ensures forall i :: 0 <= i < |SystemRules| ==> (!SystemRules[i].isEnabled <==> i == 0)
    ensures SystemRules[0].id == "general-no-first-person" && SystemRules[0].section == None
  {
  }

  /** No two system rules share an identifier. */
  lemma SystemRuleIdsDistinct()
    ensures forall i, j :: 0 <= i < j < |SystemRules| ==> SystemRules[i].id != SystemRules[j].id
  {
    forall i, j | 0 <= i < j < |SystemRules| ensures SystemRules[i].id != SystemRules[j].id {
      RuleIdsDiffer(i, j);
    }
  }

  lemma RuleIdsDiffer(i: nat, j: nat)
    requires i < j < |SystemRules|
    ensures SystemRules[i].id != SystemRules[j].id
  {
    var a := SystemRules[i].id;
    var b := SystemRules[j].id;
    if |a| == |b| {
      assert a[0] != b[0] || a[1] != b[1] || a[6] != b[6] || a[10] != b[10] || a[12] != b[12];
    }
  }

  // ---------------------------------------------------------------------------
  // Checklists

  /** An entry of `DEFAULT_CHECKLISTS` (`caption` is its `label`): weight 1 to 3 gives its importance. */
  datatype ItemTemplate = ItemTemplate(id: string, caption: string, description: string, required: bool, weight: nat)

  /** `DEFAULT_CHECKLISTS[section]`. */
  function DefaultChecklist(s: SectionType): seq<ItemTemplate>
  {
    match s
    case Title => TitleItems
    case Abstract => AbstractItems
    case Introduction => IntroductionItems
    case LiteratureReview => LiteratureReviewItems
    case Methodology => MethodologyItems
    case Results => ResultsItems
    case Discussion => DiscussionItems
    case Conclusion => ConclusionItems
    case References => ReferencesItems
  }

  const TitleItems: seq<ItemTemplate> := [
      ItemTemplate("title-descriptive", "Titulo descritivo", "O titulo descreve claramente o tema da pesquisa", true, 3),
      ItemTemplate("title-length", "Tamanho adequado", "Entre 10-15 palavras (ideal)", false, 1),
      ItemTemplate("title-keywords", "Palavras-chave presentes", "Contem termos que facilitam a busca", false, 2)]

  const AbstractItems: seq<ItemTemplate> := [
      ItemTemplate("abstract-context", "Contexto/Introducao", "Apresenta o contexto do estudo", true, 3),
      ItemTemplate("abstract-objective", "Objetivo", "Objetivo da pesquisa esta claro", true, 3),
      ItemTemplate("abstract-method", "Metodologia", "Descreve brevemente o metodo usado", true, 3),
      ItemTemplate("abstract-results", "Resultados principais", "Apresenta os principais achados", true, 3),
      ItemTemplate("abstract-conclusion", "Conclusao", "Conclui com as implicacoes do estudo", true, 2),
      ItemTemplate("abstract-length", "Tamanho adequado", "Entre 150-300 palavras", false, 1)]

  const IntroductionItems: seq<ItemTemplate> := [
      ItemTemplate("intro-context", "Contextualizacao do tema", "Apresenta o tema de forma clara e situa o leitor", true, 3),
      ItemTemplate("intro-relevance", "Relevancia/Justificativa", "Explica por que a pesquisa e importante", true, 3),
      ItemTemplate("intro-problem", "Problema de pesquisa", "Define claramente o problema a ser investigado", true, 3),
      ItemTemplate("intro-question", "Pergunta de pesquisa", "Apresenta pergunta(s) de pesquisa explicita(s)", true, 3),
      ItemTemplate("intro-objective-general", "Objetivo geral", "Define o objetivo principal do estudo", true, 3),
      ItemTemplate("intro-objectives-specific", "Objetivos especificos", "Lista objetivos especificos (3-5 recomendado)", true, 2),
      ItemTemplate("intro-hypothesis", "Hipotese (se aplicavel)", "Apresenta hipotese para estudos quantitativos", false, 2),
      ItemTemplate("intro-scope", "Delimitacao do escopo", "Define os limites da pesquisa", false, 2),
      ItemTemplate("intro-structure", "Estrutura do trabalho", "Apresenta como o trabalho esta organizado", false, 1),
      ItemTemplate("intro-definitions", "Definicao de termos-chave", "Define conceitos importantes", false, 1)]

  const LiteratureReviewItems: seq<ItemTemplate> := [
      ItemTemplate("lit-organization", "Organizacao logica", "Estrutura tematica ou cronologica clara", true, 3),
      ItemTemplate("lit-coverage", "Cobertura dos principais autores", "Cita os autores mais relevantes da area", true, 3),
      ItemTemplate("lit-recent", "Referencias recentes", "Inclui publicacoes dos ultimos 5 anos", true, 3),
      ItemTemplate("lit-synthesis", "Sintese (nao apenas resumo)", "Compara e contrasta diferentes autores", true, 3),
      ItemTemplate("lit-comparison", "Comparacao entre autores", "Identifica convergencias e divergencias", true, 2),
      ItemTemplate("lit-critical", "Posicionamento critico", "Avalia criticamente os estudos citados", false, 2),
      ItemTemplate("lit-gap", "Identificacao de lacunas", "Aponta gaps na literatura existente", true, 3),
      ItemTemplate("lit-connection", "Conexao com sua pesquisa", "Relaciona a literatura com seu estudo", true, 3),
      ItemTemplate("lit-definitions", "Definicoes conceituais", "Define os conceitos centrais do trabalho", false, 2),
      ItemTemplate("lit-transitions", "Transicoes entre topicos", "Conecta bem os diferentes subtopicos", false, 1)]

  const MethodologyItems: seq<ItemTemplate> := [
      ItemTemplate("method-type", "Tipo de pesquisa", "Define se e quali, quanti ou mista", true, 3),
      ItemTemplate("method-approach", "Abordagem metodologica", "Descreve a abordagem escolhida", true, 3),
      ItemTemplate("method-population", "Universo/Populacao", "Define a populacao do estudo", true, 3),
      ItemTemplate("method-sample", "Amostra e criterios", "Descreve a amostra e criterios de selecao", true, 3),
      ItemTemplate("method-instruments", "Instrumentos de coleta", "Descreve os instrumentos utilizados", true, 3),
      ItemTemplate("method-procedures", "Procedimentos de coleta", "Detalha como os dados foram coletados", true, 2),
      ItemTemplate("method-analysis", "Tecnicas de analise", "Explica como os dados serao analisados", true, 3),
      ItemTemplate("method-justification", "Justificativa das escolhas", "Explica por que escolheu esses metodos", false, 2),
      ItemTemplate("method-ethics", "Aspectos eticos", "Menciona CEP, TCLE quando aplicavel", false, 2),
      ItemTemplate("method-limitations", "Limitacoes metodologicas", "Reconhece limitacoes do metodo", false, 2),
      ItemTemplate("method-alignment", "Alinhamento com objetivos", "Metodo adequado aos objetivos", true, 3)]

  const ResultsItems: seq<ItemTemplate> := [
      ItemTemplate("results-objective", "Apresentacao objetiva", "Apresenta dados sem interpretacao", true, 3),
      ItemTemplate("results-organization", "Organizacao por objetivo", "Estrutura resultados por objetivo/hipotese", true, 3),
      ItemTemplate("results-visuals", "Uso de tabelas/graficos", "Utiliza recursos visuais quando apropriado", false, 2),
      ItemTemplate("results-description", "Descricao sem interpretacao", "Descreve sem discutir implicacoes", true, 2),
      ItemTemplate("results-complete", "Dados completos", "Apresenta todos os dados relevantes", true, 3),
      ItemTemplate("results-references", "Referencias a figuras/tabelas", "Menciona figuras e tabelas no texto", false, 1)]

  const DiscussionItems: seq<ItemTemplate> := [
      ItemTemplate("disc-interpretation", "Interpretacao dos resultados", "Explica o significado dos achados", true, 3),
      ItemTemplate("disc-literature", "Comparacao com literatura", "Relaciona resultados com outros estudos", true, 3),
      ItemTemplate("disc-unexpected", "Resultados inesperados", "Explica resultados que nao eram esperados", false, 2),
      ItemTemplate("disc-theoretical", "Implicacoes teoricas", "Discute contribuicoes teoricas", false, 2),
      ItemTemplate("disc-practical", "Implicacoes praticas", "Apresenta aplicacoes praticas", false, 2),
      ItemTemplate("disc-limitations", "Limitacoes do estudo", "Reconhece limitacoes da pesquisa", true, 3),
      ItemTemplate("disc-future", "Pesquisas futuras", "Sugere estudos futuros", false, 2),
      ItemTemplate("disc-answer", "Resposta a pergunta", "Responde a pergunta de pesquisa", true, 3)]

  const ConclusionItems: seq<ItemTemplate> := [
      ItemTemplate("conc-answer", "Resposta clara a pergunta", "Responde diretamente a pergunta de pesquisa", true, 3),
      ItemTemplate("conc-synthesis", "Sintese dos achados", "Resume os principais resultados", true, 3),
      ItemTemplate("conc-contributions", "Contribuicoes do estudo", "Destaca as contribuicoes da pesquisa", false, 2),
      ItemTemplate("conc-recommendations", "Recomendacoes", "Oferece recomendacoes praticas", false, 2),
      ItemTemplate("conc-no-new-info", "Sem informacoes novas", "Nao introduz dados ou argumentos novos", true, 2)]

  const ReferencesItems: seq<ItemTemplate> := [
      ItemTemplate("ref-format", "Formatacao consistente", "Segue um estilo (ABNT, APA, etc)", true, 3),
      ItemTemplate("ref-complete", "Referencias completas", "Todas as citacoes tem referencia", true, 3),
      ItemTemplate("ref-recent", "Referencias atualizadas", "Maioria dos ultimos 10 anos", false, 2),
      ItemTemplate("ref-alphabetical", "Ordem alfabetica", "Lista em ordem alfabetica", true, 1)]

  /** The total weight of a list of items. */
  function TotalWeight(items: seq<ItemTemplate>): (w: nat)
    ensures (forall i :: 0 <= i < |items| ==> items[i].weight >= 1) ==> w >= |items|
  {
    if items == [] then 0 else TotalWeight(items[..|items| - 1]) + items[|items| - 1].weight
  }

  /** Every section has a checklist, and every item of it weighs 1 to 3, so
    * the total weight of a section is never zero. */
  lemma ChecklistWeights(s: SectionType)
    ensures DefaultChecklist(s) != []
    ensures WeightsInRange(DefaultChecklist(s))
    ensures TotalWeight(DefaultChecklist(s)) > 0
  {
    if s.Title? || s.Abstract? || s.Introduction? {
      FrontWeights(s);
    } else if s.LiteratureReview? || s.Methodology? || s.Results? {
      MiddleWeights(s);
    } else {
      BackWeights(s);
    }
    WeightsOf(DefaultChecklist(s));
  }

  lemma FrontWeights(s: SectionType)
    requires s.Title? || s.Abstract? || s.Introduction?
    ensures DefaultChecklist(s) != [] && WeightsInRange(DefaultChecklist(s))
  {
    match s
    case Title => assert WeightsInRange(TitleItems);
    case Abstract => assert WeightsInRange(AbstractItems);
    case Introduction => assert WeightsInRange(IntroductionItems);
    case _ =>
  }

  lemma MiddleWeights(s: SectionType)
    requires s.LiteratureReview? || s.Methodology? || s.Results?
    ensures DefaultChecklist(s) != [] && WeightsInRange(DefaultChecklist(s))
  {
    match s
    case LiteratureReview => assert WeightsInRange(LiteratureReviewItems);
    case Methodology => assert WeightsInRange(MethodologyItems);
    case Results => assert WeightsInRange(ResultsItems);
    case _ =>
  }

  lemma BackWeights(s: SectionType)
    requires s.Discussion? || s.Conclusion? || s.References?
    ensures DefaultChecklist(s) != [] && WeightsInRange(DefaultChecklist(s))
  {
    match s
    case Discussion => assert WeightsInRange(DiscussionItems);
    case Conclusion => assert WeightsInRange(ConclusionItems);
    case References => assert WeightsInRange(ReferencesItems);
    case _ =>
  }

  lemma WeightsOf(items: seq<ItemTemplate>)
    requires items != [] && WeightsInRange(items)
    ensures TotalWeight(items) > 0
  {
  }

  /** Every item weighs 1, 2 or 3. */
  predicate WeightsInRange(items: seq<ItemTemplate>)
  {
    forall i :: 0 <= i < |items| ==> 1 <= items[i].weight <= 3
  }

  // ---------------------------------------------------------------------------
  // Labels and thresholds

  /** `SECTION_LABELS`. */
  function SectionLabel(s: SectionType): string
  {
    match s
    case Title => "Titulo"
    case Abstract => "Resumo"
    case Introduction => "Introducao"
    case LiteratureReview => "Revisao de Literatura"
    case Methodology => "Metodologia"
    case Results => "Resultados"
    case Discussion => "Discussao"
    case Conclusion => "Conclusao"
    case References => "Referencias"
  }

  /** Distinct sections have distinct labels. */
  lemma SectionLabelsDistinct(a: SectionType, b: SectionType)
    ensures SectionLabel(a) == SectionLabel(b) ==> a == b
  {
  }

  /** `SCORE_THRESHOLDS`. */
  const Excellent: int := 90
  const Good: int := 70
  const Fair: int := 50

  /** `getScoreLabel`. */
  function ScoreLabel(score: int): (r: string)
    ensures r == "Excelente" <==> score >= Excellent
    ensures r == "Bom" <==> Good <= score < Excellent
    ensures r == "Regular" <==> Fair <= score < Good
    ensures r == "Precisa melhorar" <==> score < Fair
  {
    if score >= Excellent then "Excelente"
    else if score >= Good then "Bom"
    else if score >= Fair then "Regular"
    else "Precisa melhorar"
  }

  /** `getScoreColor`. */
  function ScoreColor(score: int): (r: string)
    ensures r == "text-green-500" <==> score >= Excellent
    ensures r == "text-primary" <==> Good <= score < Excellent
    ensures r == "text-yellow-500" <==> Fair <= score < Good
    ensures r == "text-red-500" <==> score < Fair
  {
    if score >= Excellent then "text-green-500"
    else if score >= Good then "text-primary"
    else if score >= Fair then "text-yellow-500"
    else "text-red-500"
  }

  /** The rank of a label, from the lowest (0) to the highest (3). */
  function LabelRank(text: string): nat
  {
    if text == "Excelente" then 3
    else if text == "Bom" then 2
    else if text == "Regular" then 1
    else 0
  }

  /** A higher score never gets a lower label. */
  lemma ScoreLabelMonotone(a: int, b: int)
    requires a <= b
    ensures LabelRank(ScoreLabel(a)) <= LabelRank(ScoreLabel(b))
  {
  }

  /** Label and colour step at the same thresholds: scores with the same
    * label have the same colour, and the other way round. */
  lemma LabelAndColourAgree(a: int, b: int)
    ensures ScoreLabel(a) == ScoreLabel(b) <==> ScoreColor(a) == ScoreColor(b)
  {
  }
}
